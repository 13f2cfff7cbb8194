/** The environment helpers of env_src/aoc/_utils.py: which puzzle is the
    latest one unlocked (from the current UTC instant, passed in rather than
    read from a clock), and where puzzle data is fetched from and cached. */
module AocUtils {
  import opened Wrappers
  import PyStr

  // ----- calendar arithmetic (the part of `datetime` the rule needs) -----

  /** A wall-clock instant to the hour; minutes and below play no part in a
      whole-hour shift and are left out. */
  datatype DateTime = DateTime(year: int, month: int, day: int, hour: int)

  predicate IsLeapYear(y: int) {
    (y % 4 == 0 && y % 100 != 0) || y % 400 == 0
  }

  function DaysInMonth(y: int, m: int): (n: int)
    requires 1 <= m <= 12
    ensures 28 <= n <= 31
    ensures m == 12 ==> n == 31
  {
    if m == 2 then (if IsLeapYear(y) then 29 else 28)
    else if m == 4 || m == 6 || m == 9 || m == 11 then 30
    else 31
  }

  predicate Valid(t: DateTime) {
    1 <= t.month <= 12 && 1 <= t.day <= DaysInMonth(t.year, t.month) && 0 <= t.hour < 24
  }

  /** The same hour on the preceding calendar day. */
  function PreviousDay(t: DateTime): (r: DateTime)
    requires Valid(t)
    ensures Valid(r) && r.hour == t.hour
  {
    if t.day > 1 then t.(day := t.day - 1)
    else if t.month > 1 then t.(month := t.month - 1, day := DaysInMonth(t.year, t.month - 1))
    else DateTime(t.year - 1, 12, 31, t.hour)
  }

  /** The same hour on the following calendar day. */
  function NextDay(t: DateTime): (r: DateTime)
    requires Valid(t)
    ensures Valid(r) && r.hour == t.hour
  {
    if t.day < DaysInMonth(t.year, t.month) then t.(day := t.day + 1)
    else if t.month < 12 then t.(month := t.month + 1, day := 1)
    else DateTime(t.year + 1, 1, 1, t.hour)
  }

  lemma NextPreviousDay(t: DateTime)
    requires Valid(t)
    ensures NextDay(PreviousDay(t)) == t && PreviousDay(NextDay(t)) == t
  {
  }

  /** `now_utc + timedelta(hours=-5)`: the instant in EST. */
  function ToEst(utc: DateTime): (est: DateTime)
    requires Valid(utc)
    ensures Valid(est) && est.hour == (utc.hour - 5) % 24
  {
    if utc.hour >= 5 then utc.(hour := utc.hour - 5)
    else PreviousDay(utc).(hour := utc.hour + 19)
  }

  /** The inverse shift, five hours forward. */
  function FromEst(est: DateTime): (utc: DateTime)
    requires Valid(est)
    ensures Valid(utc)
  {
    if est.hour < 19 then est.(hour := est.hour + 5)
    else NextDay(est).(hour := est.hour - 19)
  }

  /** Shifting back and forth by five hours is the identity both ways, so
      the EST instant determines the UTC one and vice versa. */
  lemma EstRoundTrip(t: DateTime)
    requires Valid(t)
    ensures FromEst(ToEst(t)) == t && ToEst(FromEst(t)) == t
  {
    NextPreviousDay(t);
    NextPreviousDay(t.(hour := 0));
  }

  // ----- the latest puzzle -----

  /** The puzzle of day `d` of year `y` unlocks at midnight EST on
      December `d` of `y`; it is available at EST instant `est` once that
      midnight has passed. */
  predicate Unlocked(y: int, d: int, est: DateTime) {
    1 <= d <= 25
    && (y < est.year || (y == est.year && est.month == 12 && d <= est.day))
  }

  /** `(y1, d1)` is no later a puzzle than `(y2, d2)`. */
  predicate NotLater(y1: int, d1: int, y2: int, d2: int) {
    y1 < y2 || (y1 == y2 && d1 <= d2)
  }

  /** The decision of `get_latest_puzzle_date` on the EST date. */
  function LatestForEst(est: DateTime): (r: (int, int))
    requires Valid(est)
    ensures 1 <= r.1 <= 25
    ensures r.0 == est.year || r.0 == est.year - 1
  {
    if est.month < 12 then (est.year - 1, 25)
    else if est.day > 25 then (est.year, 25)
    else (est.year, est.day)
  }

  /** `get_latest_puzzle_date()` with the current UTC instant as input. */
  function LatestPuzzleDate(nowUtc: DateTime): (int, int)
    requires Valid(nowUtc)
  {
    LatestForEst(ToEst(nowUtc))
  }

  /** The rule picks the latest puzzle already unlocked: the result is
      unlocked, and every unlocked puzzle is no later than it. */
  lemma LatestIsGreatestUnlocked(est: DateTime, y: int, d: int)
    requires Valid(est)
    ensures Unlocked(LatestForEst(est).0, LatestForEst(est).1, est)
    ensures Unlocked(y, d, est) ==> NotLater(y, d, LatestForEst(est).0, LatestForEst(est).1)
  {
  }

  // ----- puzzle data: URL and cache file -----

  const AocBaseUrl: string := "https://adventofcode.com"

  /** The path of the page fetched for `data_type`: the input file for
      "input", the day page for anything else. */
  function UrlPath(year: int, day: int, dataType: string): string {
    var page := "/" + PyStr.IntToStr(year) + "/day/" + PyStr.IntToStr(day);
    if dataType == "input" then page + "/input" else page
  }

  /** The extension of the cache file: "md" for instructions, "txt" otherwise. */
  function Extension(dataType: string): string {
    if dataType == "instructions" then "md" else "txt"
  }

  /** The cache file, as path components under the cache directory:
      `<year>/<day>/<data_type>.<ext>` (the day directory is `str(day)`,
      not zero-padded). */
  function CacheFile(year: int, day: int, dataType: string): (p: seq<string>)
    ensures |p| == 3 && p[0] == PyStr.IntToStr(year) && p[1] == PyStr.IntToStr(day)
    ensures p[2] == dataType + "." + Extension(dataType)
  {
    [PyStr.IntToStr(year), PyStr.IntToStr(day), dataType + "." + Extension(dataType)]
  }

  /** Different requests never share a cache file. */
  lemma CacheFileInjective(y1: int, d1: int, t1: string, y2: int, d2: int, t2: string)
    requires CacheFile(y1, d1, t1) == CacheFile(y2, d2, t2)
    ensures y1 == y2 && d1 == d2 && t1 == t2
  {
    PyStr.IntToStrInjective(y1, y2);
    PyStr.IntToStrInjective(d1, d2);
    var f := t1 + "." + Extension(t1);
    assert f == t2 + "." + Extension(t2);
    if Extension(t1) == Extension(t2) {
      var e := Extension(t1);
      assert t1 == f[..|f| - |e| - 1] == t2;
    } else {
      assert f[|f| - 1] == Extension(t1)[|Extension(t1)| - 1];
      assert f[|f| - 1] == Extension(t2)[|Extension(t2)| - 1];
    }
  }

  /** "input" is fetched from the `/input` URL, anything else from the day page. */
  lemma UrlPathCases(year: int, day: int, dataType: string)
    ensures var page := "/" + PyStr.IntToStr(year) + "/day/" + PyStr.IntToStr(day);
      (dataType == "input" <==> UrlPath(year, day, dataType) == page + "/input")
      && (dataType != "input" <==> UrlPath(year, day, dataType) == page)
  {
    var page := "/" + PyStr.IntToStr(year) + "/day/" + PyStr.IntToStr(day);
    if dataType == "input" {
      assert |UrlPath(year, day, dataType)| != |page|;
    }
  }

  // ----- get_aoc_data -----

  datatype FetchError =
    | MissingSessionCookie   // ConnectionError before any request
    | HttpError              // requests / raise_for_status failure

  /** The session cookie counts as missing when absent or empty (`not cookie`). */
  predicate HasCookie(cookie: Option<string>) {
    cookie.Some? && cookie.value != ""
  }

  /** The on-disk cache of puzzle data, with the requests sent to the site
      recorded as a ghost trace. */
  class DataCache {
    var files: map<seq<string>, string>
    ghost var requests: seq<string>

    constructor (initial: map<seq<string>, string>)
      ensures files == initial && requests == []
    {
      files := initial;
      requests := [];
    }

    /** `get_aoc_data(year, day, data_type)`.  The configured session cookie,
        the site (URL to response text, `None` for an HTTP error) and
        `format_instructions` (HTML to terminal text) are parameters. */
    method GetAocData(year: int, day: int, dataType: string, cookie: Option<string>,
                      site: string -> Option<string>, formatInstructions: string -> string)
      returns (r: Result<string, FetchError>)
      modifies this
      ensures var path := CacheFile(year, day, dataType);
        if path in old(files) then
          r == Ok(old(files)[path]) && files == old(files) && requests == old(requests)
        else if !HasCookie(cookie) then
          r == Err(MissingSessionCookie) && files == old(files) && requests == old(requests)
        else
          var url := AocBaseUrl + UrlPath(year, day, dataType);
          requests == old(requests) + [url]
          && match site(url)
             case None => r == Err(HttpError) && files == old(files)
             case Some(text) =>
               var content := if dataType == "instructions" then formatInstructions(text) else text;
               r == Ok(content) && files == old(files)[path := content]
    {
      var path := CacheFile(year, day, dataType);
      if path in files {
        return Ok(files[path]);
      }
      if !HasCookie(cookie) {
        return Err(MissingSessionCookie);
      }
      var url := AocBaseUrl + UrlPath(year, day, dataType);
      requests := requests + [url];
      var response := site(url);
      if response.None? {
        return Err(HttpError);
      }
      var content := response.value;
      if dataType == "instructions" {
        content := formatInstructions(content);
      }
      files := files[path := content];
      r := Ok(content);
    }
  }

  /** Once a fetch has filled the cache, the same request is answered from
      the cache with the same text and sends nothing, whatever the cookie:
      the two calls together send at most the first call's request. */
  method FetchIsCached(c: DataCache, year: int, day: int, dataType: string,
                       site: string -> Option<string>, format: string -> string,
                       laterCookie: Option<string>)
    returns (first: Result<string, FetchError>, second: Result<string, FetchError>)
    modifies c
    ensures first.Ok? ==> second == first
    ensures first.Ok? ==>
      c.requests == old(c.requests) + (if CacheFile(year, day, dataType) in old(c.files) then []
                                       else [AocBaseUrl + UrlPath(year, day, dataType)])
  {
    first := c.GetAocData(year, day, dataType, Some("session"), site, format);
    second := c.GetAocData(year, day, dataType, laterCookie, site, format);
  }
}
