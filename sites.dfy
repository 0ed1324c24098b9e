/** The four image sources the crawler knows, by their integer codes, with the
    name each one writes into file names and its face-search query suffix. */
module Sites {
  import opened Wrappers

  const GOOGLE: int := 1
  const NAVER: int := 2
  const GOOGLE_FULL: int := 3
  const NAVER_FULL: int := 4

  const GOOGLE_FACE: string := "&tbs=itp:face"
  const NAVER_FACE: string := "&face=1"

  predicate IsSiteCode(code: int)
  {
    code == GOOGLE || code == NAVER || code == GOOGLE_FULL || code == NAVER_FULL
  }

  /** Python's truth value of an integer used as a condition. */
  predicate PyTruthy(n: int)
  {
    n != 0
  }

  /** The source name of a site code, used in log lines and as the file-name prefix;
      Python's `None` for a code that is none of the four. */
  function GetText(code: int): (r: Option<string>)
    ensures r == Some("google") <==> code == GOOGLE || code == GOOGLE_FULL
    ensures r == Some("naver") <==> code == NAVER || code == NAVER_FULL
    ensures r == None <==> !IsSiteCode(code)
  {
    if code == GOOGLE then Some("google")
    else if code == NAVER then Some("naver")
    else if code == GOOGLE_FULL then Some("google")
    else if code == NAVER_FULL then Some("naver")
    else None
  }

  /** The face-search query suffix, as the conditions are written: each test is
      `code == X or Y_FULL`, and the constant `Y_FULL` on its own is truthy, so the
      first test always passes. Every code, Naver's included, gets Google's suffix. */
  function GetFaceUrl(code: int): (r: Option<string>)
    ensures r == Some(GOOGLE_FACE)
    ensures r != Some(NAVER_FACE)
  {
    if code == GOOGLE || PyTruthy(GOOGLE_FULL) then Some(GOOGLE_FACE)
    else if code == NAVER || PyTruthy(NAVER_FULL) then Some(NAVER_FACE)
    else None
  }

  /** The site name put into file names: `'{}'.format(Sites.get_text(code))`,
      which is `"None"` for an unknown code. */
  function SiteName(code: int): (r: string)
    ensures '/' !in r
    ensures GetText(code).Some? ==> r == GetText(code).value
    ensures !IsSiteCode(code) ==> r == "None"
  {
    match GetText(code)
    case Some(name) => name
    case None => "None"
  }

  /** Thumbnail and full-resolution variants of a source share its name, the two
      sources have different names, and no name holds a path separator. */
  lemma SiteNames(code: int, other: int)
    requires IsSiteCode(code) && IsSiteCode(other)
    ensures GetText(code).Some? && '/' !in GetText(code).value
    ensures GetText(code) == GetText(other) <==>
              ((code == GOOGLE || code == GOOGLE_FULL) <==> (other == GOOGLE || other == GOOGLE_FULL))
  {
  }
}
