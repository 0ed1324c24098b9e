/** The crawler's settings and the task list `do_crawling` builds from the
    keywords: one task per keyword and enabled source, Google's before Naver's,
    skipping keywords whose directory already exists when asked to. */
module Planning {
  import opened Wrappers
  import opened Sites
  import opened Naming

  /** The constructor's settings that decide what is crawled and where. */
  datatype Config = Config(
    skip: bool,            // skip_already_exist
    doGoogle: bool,        // do_google
    doNaver: bool,         // do_naver
    downloadPath: string,  // download_path
    fullResolution: bool,  // full_resolution
    face: bool)            // face

  /** `[keyword, site_code]`. */
  datatype Task = Task(keyword: string, code: int)

  /** The site codes queued for every keyword that is not skipped, in order. */
  function SourceCodes(c: Config): (r: seq<int>)
    ensures |r| == (if c.doGoogle then 1 else 0) + (if c.doNaver then 1 else 0)
    ensures forall i :: 0 <= i < |r| ==> IsSiteCode(r[i])
    ensures GOOGLE in r <==> c.doGoogle && !c.fullResolution
    ensures GOOGLE_FULL in r <==> c.doGoogle && c.fullResolution
    ensures NAVER in r <==> c.doNaver && !c.fullResolution
    ensures NAVER_FULL in r <==> c.doNaver && c.fullResolution
    ensures c.doGoogle && c.doNaver ==> GetText(r[0]) == Some("google") && GetText(r[1]) == Some("naver")
  {
    (if c.doGoogle then [if c.fullResolution then GOOGLE_FULL else GOOGLE] else []) +
    (if c.doNaver then [if c.fullResolution then NAVER_FULL else NAVER] else [])
  }

  /** The keyword is skipped: its directory exists and `skip` is set. */
  predicate Skipped(c: Config, existing: set<string>, keyword: string)
  {
    KeywordDir(c.downloadPath, keyword) in existing && c.skip
  }

  function TasksFor(keyword: string, codes: seq<int>): (r: seq<Task>)
    ensures |r| == |codes|
    ensures forall i :: 0 <= i < |r| ==> r[i] == Task(keyword, codes[i])
  {
    if |codes| == 0 then [] else TasksFor(keyword, codes[..|codes| - 1]) + [Task(keyword, codes[|codes| - 1])]
  }

  /** The tasks for `keywords`, given the paths that exist when planning starts. */
  function Planned(c: Config, existing: set<string>, keywords: seq<string>): seq<Task>
  {
    if |keywords| == 0 then []
    else
      var k := keywords[|keywords| - 1];
      Planned(c, existing, keywords[..|keywords| - 1]) +
      (if Skipped(c, existing, k) then [] else TasksFor(k, SourceCodes(c)))
  }

  /** How many keywords are not skipped. */
  function CountKept(c: Config, existing: set<string>, keywords: seq<string>): nat
  {
    if |keywords| == 0 then 0
    else CountKept(c, existing, keywords[..|keywords| - 1]) +
         (if Skipped(c, existing, keywords[|keywords| - 1]) then 0 else 1)
  }

  /** Each kept keyword contributes one task per enabled source. */
  lemma {:induction false} PlannedCount(c: Config, existing: set<string>, keywords: seq<string>)
    ensures |Planned(c, existing, keywords)| == CountKept(c, existing, keywords) * |SourceCodes(c)|
  {
    if |keywords| > 0 {
      PlannedCount(c, existing, keywords[..|keywords| - 1]);
    }
  }

  /** A task is planned exactly for a listed keyword that is not skipped and an
      enabled source at the configured resolution. */
  lemma {:induction false} PlannedMembers(c: Config, existing: set<string>, keywords: seq<string>)
    ensures forall t :: t in Planned(c, existing, keywords) <==>
      t.keyword in keywords && !Skipped(c, existing, t.keyword) && t.code in SourceCodes(c)
  {
    if |keywords| > 0 {
      var n := |keywords| - 1;
      PlannedMembers(c, existing, keywords[..n]);
      assert keywords == keywords[..n] + [keywords[n]];
      forall t: Task | t in TasksFor(keywords[n], SourceCodes(c))
        ensures t.keyword == keywords[n] && t.code in SourceCodes(c)
      {
      }
      forall t: Task | t.keyword == keywords[n] && t.code in SourceCodes(c)
        ensures t in TasksFor(keywords[n], SourceCodes(c))
      {
        var i :| 0 <= i < |SourceCodes(c)| && SourceCodes(c)[i] == t.code;
        assert TasksFor(keywords[n], SourceCodes(c))[i] == t;
      }
    }
  }

  /** Every planned task's code is one of the four sites, and a full-resolution
      code appears exactly when full resolution is configured. */
  lemma PlannedCodes(c: Config, existing: set<string>, keywords: seq<string>)
    ensures forall t :: t in Planned(c, existing, keywords) ==> IsSiteCode(t.code)
    ensures forall t :: t in Planned(c, existing, keywords) ==>
      ((t.code == GOOGLE_FULL || t.code == NAVER_FULL) <==> c.fullResolution)
  {
    PlannedMembers(c, existing, keywords);
  }

  /** No two tasks share both keyword and site name, the two parts of the
      directory and file name a task writes to. */
  predicate DistinctTargets(ts: seq<Task>)
  {
    forall i, j :: 0 <= i < j < |ts| ==>
      ts[i].keyword != ts[j].keyword || SiteName(ts[i].code) != SiteName(ts[j].code)
  }

  /** When the keywords are distinct, no two planned tasks share both keyword and
      source name, so no two of them write to the same file. */
  lemma {:induction false} PlannedDistinct(c: Config, existing: set<string>, keywords: seq<string>)
    requires forall i, j :: 0 <= i < j < |keywords| ==> keywords[i] != keywords[j]
    ensures DistinctTargets(Planned(c, existing, keywords))
  {
    if |keywords| > 0 {
      var n := |keywords| - 1;
      var init := keywords[..n];
      var front := Planned(c, existing, init);
      var back := if Skipped(c, existing, keywords[n]) then [] else TasksFor(keywords[n], SourceCodes(c));
      PlannedDistinct(c, existing, init);
      PlannedMembers(c, existing, init);
      var ts := front + back;
      forall i, j | 0 <= i < j < |ts|
        ensures ts[i].keyword != ts[j].keyword || SiteName(ts[i].code) != SiteName(ts[j].code)
      {
        if j < |front| {
          assert ts[i] == front[i] && ts[j] == front[j];
        } else if i < |front| {
          assert ts[i] in front;
          assert ts[j].keyword == keywords[n] && keywords[n] !in init;
        } else {
          var codes := SourceCodes(c);
          assert ts[i] == back[i - |front|] && ts[j] == back[j - |front|];
          assert ts[i].code == codes[i - |front|] && ts[j].code == codes[j - |front|];
          assert i - |front| == 0 && j - |front| == 1 && |codes| == 2;
        }
      }
    }
  }

  /** A skipped keyword gets no task, and with `skip` unset every keyword gets
      one task per enabled source. */
  lemma SkipMeansNoTask(c: Config, existing: set<string>, keywords: seq<string>, k: string)
    requires k in keywords
    ensures Skipped(c, existing, k) ==> forall t :: t in Planned(c, existing, keywords) ==> t.keyword != k
    ensures !c.skip ==> forall code :: code in SourceCodes(c) ==> Task(k, code) in Planned(c, existing, keywords)
  {
    PlannedMembers(c, existing, keywords);
  }
}
