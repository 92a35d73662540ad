/** `download_with_yt_dlp` (main.py): the list of Twitter API back-ends to
    try, the attempts chosen by URL class, and the loop in which the first
    success wins and the last error is raised. What an attempt does — yt-dlp
    extracting the video, `normalize_download_path`, `transcode_to_hevc` — is
    represented by its outcome. */
module Download {
  import opened Wrappers
  import opened Text
  import opened Urls
  import opened Paths
  import opened Transcode

  /** The default of `YTDLP_TWITTER_API_ORDER`. */
  const DefaultApiOrder := "graphql,legacy,syndication"

  /** The environment variables that choose the back-ends. */
  datatype ApiEnv = ApiEnv(apiOrder: Option<string>, ytdlpApi: Option<string>, twitterApi: Option<string>)

  /** `[part.strip() for part in parts if part.strip()]` */
  function Candidates(parts: seq<string>): (c: seq<string>)
    ensures |c| <= |parts|
    ensures forall k :: 0 <= k < |c| ==> c[k] != "" && Strip(c[k]) == c[k]
  {
    if parts == [] then []
    else
      var first := Strip(parts[0]);
      if first == "" then Candidates(parts[1..])
      else
        StripNoMargins(first);
        [first] + Candidates(parts[1..])
  }

  /** The API candidates: the stripped, non-blank comma parts of the order in
      their given order; when there are none, the single value
      `YTDLP_TWITTER_API or TWITTER_API or "syndication"`. */
  function ApiCandidates(env: ApiEnv): (c: seq<string>)
    ensures |c| >= 1
  {
    var parsed := Candidates(Split(env.apiOrder.GetOr(DefaultApiOrder), ','));
    if parsed == [] then [OrElse(env.ytdlpApi, OrElse(env.twitterApi, "syndication"))] else parsed
  }

  /** Candidates keep the order of the parts they come from: a part is kept
      exactly when it is not blank, and the parts before it contribute the
      candidates before it. */
  lemma {:induction false} CandidatesAppend(a: seq<string>, b: seq<string>)
    ensures Candidates(a + b) == Candidates(a) + Candidates(b)
    decreases |a|
  {
    if a == [] {
      assert a + b == b;
    } else {
      assert (a + b)[0] == a[0];
      assert (a + b)[1..] == a[1..] + b;
      CandidatesAppend(a[1..], b);
    }
  }

  /** One part contributes itself, stripped, unless it is blank. */
  lemma CandidatesOne(part: string)
    ensures Candidates([part]) == (if Strip(part) == "" then [] else [Strip(part)])
  {
    assert [part][1..] == [];
  }

  /** A back-end name as the order lists it: not blank, no comma, nothing to strip. */
  predicate IsApiName(name: string) {
    name != "" && ',' !in name && Strip(name) == name
  }

  /** Names that need no stripping and hold no comma, written comma-separated,
      are the candidates, in their order. */
  lemma {:induction false} CandidatesOfNames(names: seq<string>)
    requires forall k :: 0 <= k < |names| ==> IsApiName(names[k])
    ensures Candidates(names) == names
    decreases |names|
  {
    if names != [] {
      CandidatesOfNames(names[1..]);
      assert [names[0]] + names[1..] == names;
    }
  }

  /** Writing back-end names comma-separated in `YTDLP_TWITTER_API_ORDER`
      makes them the candidates, in the order written. */
  lemma ApiOrderRoundTrip(names: seq<string>, ytdlpApi: Option<string>, twitterApi: Option<string>)
    requires |names| >= 1
    requires forall k :: 0 <= k < |names| ==> IsApiName(names[k])
    ensures ApiCandidates(ApiEnv(Some(Join(names, ',')), ytdlpApi, twitterApi)) == names
  {
    CandidatesOfJoin(names);
  }

  lemma CandidatesOfJoin(names: seq<string>)
    requires |names| >= 1
    requires forall k :: 0 <= k < |names| ==> IsApiName(names[k])
    ensures Candidates(Split(Join(names, ','), ',')) == names
  {
    SplitJoin(names, ',');
    CandidatesOfNames(names);
  }

  /** A blank order falls back to a single back-end: `YTDLP_TWITTER_API`,
      else `TWITTER_API`, else `syndication`. */
  lemma BlankOrderFallsBack(order: string, ytdlpApi: Option<string>, twitterApi: Option<string>)
    requires forall k :: 0 <= k < |Split(order, ',')| ==> Strip(Split(order, ',')[k]) == ""
    ensures var c := ApiCandidates(ApiEnv(Some(order), ytdlpApi, twitterApi));
      && |c| == 1
      && (ytdlpApi.Some? && ytdlpApi.value != "" ==> c[0] == ytdlpApi.value)
      && ((ytdlpApi.None? || ytdlpApi.value == "") && twitterApi.Some? && twitterApi.value != "" ==> c[0] == twitterApi.value)
      && ((ytdlpApi.None? || ytdlpApi.value == "") && (twitterApi.None? || twitterApi.value == "") ==> c[0] == "syndication")
  {
    BlankPartsDropped(Split(order, ','));
  }

  /** Only blank parts give no candidates. */
  lemma {:induction false} BlankPartsDropped(parts: seq<string>)
    requires forall k :: 0 <= k < |parts| ==> Strip(parts[k]) == ""
    ensures Candidates(parts) == []
    decreases |parts|
  {
    if parts != [] {
      assert Strip(parts[0]) == "";
      BlankPartsDropped(parts[1..]);
    }
  }

  /** The back-ends of the default order, in order. */
  const DefaultApis := ["graphql", "legacy", "syndication"]

  /** The default order is the default back-ends, comma-separated. */
  lemma DefaultOrderJoined()
    ensures Join(DefaultApis, ',') == DefaultApiOrder
  {
    assert Join(DefaultApis[2..], ',') == "syndication";
    assert Join(DefaultApis[1..], ',') == "legacy,syndication";
  }

  lemma DefaultApisAreNames(k: nat)
    requires k < |DefaultApis|
    ensures IsApiName(DefaultApis[k])
  {
    StripNoMargins(DefaultApis[k]);
  }

  /** The default order tries GraphQL, then the legacy API, then syndication. */
  lemma DefaultOrder(ytdlpApi: Option<string>, twitterApi: Option<string>)
    ensures ApiCandidates(ApiEnv(None, ytdlpApi, twitterApi)) == DefaultApis
  {
    DefaultOrderJoined();
    forall k | 0 <= k < |DefaultApis| ensures IsApiName(DefaultApis[k]) {
      DefaultApisAreNames(k);
    }
    ApiOrderRoundTrip(DefaultApis, ytdlpApi, twitterApi);
  }

  /** The API each attempt passes to yt-dlp: the candidates for a Twitter URL,
      and the single attempt without one (`[None]`) otherwise. */
  function Attempts(url: string, candidates: seq<string>): (a: seq<Option<string>>)
    ensures IsTwitterUrl(url) ==> |a| == |candidates| && forall k :: 0 <= k < |a| ==> a[k] == Some(candidates[k])
    ensures !IsTwitterUrl(url) ==> a == [None]
  {
    if IsTwitterUrl(url) then SomeEach(candidates) else [None]
  }

  function SomeEach(s: seq<string>): (a: seq<Option<string>>)
    ensures |a| == |s| && forall k :: 0 <= k < |s| ==> a[k] == Some(s[k])
  {
    if s == [] then [] else [Some(s[0])] + SomeEach(s[1..])
  }

  /** Why one attempt failed: yt-dlp raised (its message), `with_suffix`
      raised, or `transcode_to_hevc` raised. */
  datatype AttemptError = YtDlpFailed(message: string) | PathFailed(pathError: PathError) | TranscodeFailed(transcodeError: TranscodeError)

  /** What one attempt produced. */
  datatype Outcome = Succeeded(path: string) | Failed(error: AttemptError)

  /** What `download_with_yt_dlp` raises: the last attempt's error, or
      `RuntimeError("Download failed")` when nothing was attempted. */
  datatype DownloadError = AttemptFailed(error: AttemptError) | DownloadFailed

  /** One attempt: yt-dlp reports the file it wrote (or raises), the path is
      normalized, and the result is transcoded. */
  function RunAttempt(ytdlp: Result<string, string>, outputDir: string, tools: Tools, files: Files,
                      probe: ProbeRun, ffmpeg: seq<string> -> FfmpegRun): Outcome
  {
    match ytdlp
    case Err(message) => Failed(YtDlpFailed(message))
    case Ok(filename) =>
      match NormalizeDownloadPath(filename, files)
      case Err(e) => Failed(PathFailed(e))
      case Ok(downloaded) =>
        match TranscodeToHevc(downloaded, outputDir, tools, files, probe, ffmpeg)
        case Err(e) => Failed(TranscodeFailed(e))
        case Ok(out) => Succeeded(out)
  }

  /** A successful attempt yields the fixed copy of what yt-dlp downloaded:
      `<stem>.fixed.mp4` for the stem of the normalized download. */
  lemma AttemptSuccessName(ytdlp: Result<string, string>, outputDir: string, tools: Tools, files: Files,
                           probe: ProbeRun, ffmpeg: seq<string> -> FfmpegRun)
    requires RunAttempt(ytdlp, outputDir, tools, files, probe, ffmpeg).Succeeded?
    ensures ytdlp.Ok? && NormalizeDownloadPath(ytdlp.value, files).Ok?
    ensures var downloaded := NormalizeDownloadPath(ytdlp.value, files).value;
      var out := RunAttempt(ytdlp, outputDir, tools, files, probe, ffmpeg).path;
      && downloaded in files && files[downloaded] > 0
      && out == OutputPath(downloaded, outputDir)
      && Name(out) == Stem(Name(downloaded)) + ".fixed.mp4"
  {
    var downloaded := NormalizeDownloadPath(ytdlp.value, files).value;
    InputChecksFirst(downloaded, outputDir, tools, files, probe, ffmpeg);
    SuccessIsOutputPath(downloaded, outputDir, tools, files, probe, ffmpeg);
    OutputPathName(downloaded, outputDir);
  }

  /** The index of the first success, if any. */
  function FirstSuccess(outcomes: seq<Outcome>): (r: Option<nat>)
    ensures r.Some? ==> r.value < |outcomes| && outcomes[r.value].Succeeded?
    ensures r.Some? ==> forall j :: 0 <= j < r.value ==> outcomes[j].Failed?
    ensures r.None? ==> forall j :: 0 <= j < |outcomes| ==> outcomes[j].Failed?
  {
    if outcomes == [] then None
    else if outcomes[0].Succeeded? then Some(0)
    else match FirstSuccess(outcomes[1..])
      case Some(i) => Some(i + 1)
      case None => None
  }

  /** What the loop returns or raises, given the outcome of every attempt it may make. */
  function Expected(outcomes: seq<Outcome>): Result<string, DownloadError> {
    match FirstSuccess(outcomes)
    case Some(i) => Ok(outcomes[i].path)
    case None => if outcomes == [] then Err(DownloadFailed) else Err(AttemptFailed(outcomes[|outcomes| - 1].error))
  }

  /** How many attempts the loop makes: up to and including the first success, or all. */
  function AttemptsMade(outcomes: seq<Outcome>): (n: nat)
    ensures n <= |outcomes|
  {
    match FirstSuccess(outcomes)
    case Some(i) => i + 1
    case None => |outcomes|
  }

  /** The loop of `download_with_yt_dlp` over `attempts`. `outcomes[k]` is
      what the `k`-th attempt would produce; `tried` are the attempts made, in
      order. With `stopAfterFailure` (a URL that is not a Twitter one, which
      has a single attempt) a failure ends the loop. */
  method RunAttempts(attempts: seq<Option<string>>, stopAfterFailure: bool, outcomes: seq<Outcome>)
    returns (result: Result<string, DownloadError>, tried: seq<Option<string>>)
    requires |outcomes| == |attempts|
    requires stopAfterFailure ==> |attempts| == 1
    ensures result == Expected(outcomes)
    ensures tried == attempts[..AttemptsMade(outcomes)]
  {
    var lastError: Option<AttemptError> := None;
    tried := [];
    var i := 0;
    while i < |attempts|
      invariant 0 <= i <= |attempts|
      invariant forall j :: 0 <= j < i ==> outcomes[j].Failed?
      invariant lastError == (if i == 0 then None else Some(outcomes[i - 1].error))
      invariant tried == attempts[..i]
    {
      tried := tried + [attempts[i]];
      match outcomes[i]
      case Succeeded(path) =>
        FirstSuccessAt(outcomes, i);
        assert attempts[..i + 1] == attempts[..i] + [attempts[i]];
        return Ok(path), tried;
      case Failed(e) =>
        lastError := Some(e);
        if stopAfterFailure {
          i := i + 1;
          break;
        }
      i := i + 1;
    }
    NoSuccess(outcomes, i);
    if lastError.Some? {
      return Err(AttemptFailed(lastError.value)), tried;
    }
    return Err(DownloadFailed), tried;
  }

  /** `download_with_yt_dlp(url, output_dir)`: the attempts for the URL's
      class, run in order until one succeeds. */
  method DownloadWithYtDlp(url: string, env: ApiEnv, outcomes: seq<Outcome>)
    returns (result: Result<string, DownloadError>, tried: seq<Option<string>>)
    requires |outcomes| == |Attempts(url, ApiCandidates(env))|
    ensures result == Expected(outcomes)
    ensures tried == Attempts(url, ApiCandidates(env))[..AttemptsMade(outcomes)]
  {
    var attempts := Attempts(url, ApiCandidates(env));
    result, tried := RunAttempts(attempts, !IsTwitterUrl(url), outcomes);
  }

  /** A success preceded only by failures is the first success. */
  lemma {:induction false} FirstSuccessAt(outcomes: seq<Outcome>, i: nat)
    requires i < |outcomes| && outcomes[i].Succeeded?
    requires forall j :: 0 <= j < i ==> outcomes[j].Failed?
    ensures FirstSuccess(outcomes) == Some(i)
    decreases i
  {
    if i > 0 {
      FirstSuccessAt(outcomes[1..], i - 1);
    }
  }

  /** When every attempt failed there is no success. */
  lemma NoSuccess(outcomes: seq<Outcome>, i: nat)
    requires i == |outcomes|
    requires forall j :: 0 <= j < i ==> outcomes[j].Failed?
    ensures FirstSuccess(outcomes).None?
  {
  }

  /** The first success wins: the attempts after it are never made, so their
      outcomes do not matter. */
  lemma FirstSuccessWins(failures: seq<Outcome>, path: string, later: seq<Outcome>)
    requires forall j :: 0 <= j < |failures| ==> failures[j].Failed?
    ensures Expected(failures + [Succeeded(path)] + later) == Ok(path)
    ensures AttemptsMade(failures + [Succeeded(path)] + later) == |failures| + 1
  {
    var all := failures + [Succeeded(path)] + later;
    assert forall j :: 0 <= j < |failures| ==> all[j] == failures[j];
    FirstSuccessAt(all, |failures|);
  }

  /** The last error wins: when every attempt fails, the error raised is the
      last attempt's, after every attempt has been made. */
  lemma LastErrorWins(failures: seq<Outcome>)
    requires |failures| > 0
    requires forall j :: 0 <= j < |failures| ==> failures[j].Failed?
    ensures Expected(failures) == Err(AttemptFailed(failures[|failures| - 1].error))
    ensures AttemptsMade(failures) == |failures|
  {
    NoSuccess(failures, |failures|);
  }

  /** There is always an attempt, so `RuntimeError("Download failed")` is
      never raised. */
  lemma AlwaysAttempted(url: string, env: ApiEnv, outcomes: seq<Outcome>)
    requires |outcomes| == |Attempts(url, ApiCandidates(env))|
    ensures Expected(outcomes) != Err(DownloadFailed)
  {
    if FirstSuccess(outcomes).None? {
      assert outcomes != [];
    }
  }

  /** A URL that is not a Twitter one makes exactly one attempt, without an
      API setting, and its outcome is the result. */
  lemma NonTwitterSingleAttempt(url: string, env: ApiEnv, outcome: Outcome)
    requires !IsTwitterUrl(url)
    ensures Attempts(url, ApiCandidates(env)) == [None]
    ensures AttemptsMade([outcome]) == 1
    ensures Expected([outcome]) == (match outcome case Succeeded(p) => Ok(p) case Failed(e) => Err(AttemptFailed(e)))
  {
  }

  /** A Twitter URL tries every candidate in order, each with its API, until one succeeds. */
  lemma TwitterTriesInOrder(url: string, env: ApiEnv, outcomes: seq<Outcome>)
    requires IsTwitterUrl(url)
    requires |outcomes| == |ApiCandidates(env)|
    ensures var tried := Attempts(url, ApiCandidates(env))[..AttemptsMade(outcomes)];
      forall k :: 0 <= k < |tried| ==> tried[k] == Some(ApiCandidates(env)[k])
  {
  }
}
