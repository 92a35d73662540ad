# telegram-twitter: a verified model of the download pipeline

The bot in `main.py` takes chat messages that carry links and downloads each
linked video with yt-dlp. It repairs the video's aspect ratio with
ffmpeg if needed, then sends it back through Telegram. This project models
the decisions the bot makes along the way and proves properties about them:

- **Links** (`urls.dfy`). `extract_urls` finds every `https?://\S+` run in a
  message. `is_twitter_url` decides whether a link points at Twitter/X, from
  the netloc that `urllib.parse.urlsplit` extracts (modelled after
  Python 3.12).
- **Allow-list** (`allowlist.dfy`). `parse_allowlist` reads
  `ALLOWLIST_USER_IDS` with a loop, and `handle_message` uses the result to
  refuse a user.
- **Paths** (`paths.dfy`). The `pathlib` operations the bot uses are `name`,
  `suffix`, `stem`, `with_suffix` and `/`. `normalize_download_path` swaps the
  file yt-dlp declared for its `.mp4` sibling.
- **Transcoding** (`transcode.dfy`). `get_video_info` probes the stream.
  `transcode_to_hevc` makes its input checks, decides whether the
  sample aspect ratio (SAR) needs fixing, builds one of its two ffmpeg
  command lines, names the output `<stem>.fixed.mp4` and cuts the error
  text to 500 characters.
- **Download** (`download.dfy`). `download_with_yt_dlp` parses the
  ordered list of Twitter API back-ends, then runs the fallback loop: the
  first success wins and the last error is raised.
- **Delivery** (`delivery.dfy`). The upload gate: 2000 MiB through a local
  Bot API server, 50 MiB otherwise, and a file is refused exactly when it is
  larger than the limit.

Supporting modules:

- `wrappers.dfy`: `Option` and `Result`.
- `text.dfy`: `str.strip`, `split`, `join`, `lower` and `removeprefix`.
- `pyint.dfy`: Python's `int()` on text, with sign, underscores and the
  whitespace it skips at the ends, plus `str()` on integers.

The outside world enters the model as parameters:

- the environment variables;
- the file system, as a map from existing paths to their sizes;
- where `shutil.which` finds a tool;
- how an ffprobe or ffmpeg run ends;
- the outcome of each download attempt.

Points of the code's behaviour that the model keeps:

- `normalize_download_path` replaces the path only when the declared file
  **exists** and its `.mp4` sibling exists too. A declared file that is
  missing is returned unchanged (`Paths.MissingDeclaredFileKept`).
- Only the literal SAR `0:1` is exempt from the fix. A zero numerator over
  any other denominator, such as `0:5`, does need the fix
  (`Transcode.ZeroNumeratorNeedsFix`).
- The re-encoding command uses libx264, whatever the function's name says.
- Width, height and display aspect ratio are only logged
  (`Transcode.OnlySarDecides`).
- A timeout of the probe is not caught inside `get_video_info`. It propagates
  out of `transcode_to_hevc`. So do the exceptions that neither function
  catches: `OSError` when a tool cannot be started and `UnicodeDecodeError`
  when its output is not text (and, from the probe, `AttributeError` on
  JSON that is not an object).
- `int()` skips less than `strip()` does. It skips every whitespace
  character at the ends except the separators U+001C to U+001F, in any
  string. The SAR parts are not stripped, so for the SAR `"\x1c4:3"` (or
  `"\x1c4\xa0:3"`) `int()` raises, the `ValueError` is swallowed and no
  fix is made (`Transcode.SeparatorSarNeedsNoFix`).
  Allow-list parts are stripped first, so there the difference does not
  show.
- `with_suffix` raises `ValueError` on a path whose name is empty. That is
  the `PathFailed` outcome of an attempt.

## Model

| member | source | states |
|---|---|---|
| Urls.Netloc | main.py:62 | defines the netloc `urlparse` extracts, or the `ValueError` it raises; characterised by `Urls.NetlocOfUrl` and `Urls.PortOrUserinfoNeverMatches` |
| Urls.HostKey | main.py:62-66 | defines the compared host: the netloc lowered, then one leading `www.` removed; the lemmas below state which hosts it admits |
| Urls.IsTwitterUrl | main.py:60-67 | defines `is_twitter_url`: false when `urlparse` raises, else whether the host key is one of the four hosts; characterised by `Urls.TwitterUrlCharacterization` |
| Urls.NetlocOfUrl | main.py:62 | `scheme://host` followed by a `/`, `?` or `#` part (or nothing) has exactly `host` as its netloc |
| Urls.TwitterUrlCharacterization | main.py:60-67 | such a URL is a Twitter URL iff its host, lowered and with one leading `www.` removed, is one of `twitter.com`, `x.com`, `mobile.twitter.com`, `mobile.x.com` |
| Urls.TwitterHostRecognised | main.py:66-67 | each of the four hosts is recognised behind any scheme |
| Urls.TwitterWwwHostRecognised | main.py:66-67 | each of the four hosts is recognised with a leading `www.` |
| Urls.OtherHostRejected | main.py:60-67 | a plain lower-case host outside the four, not starting with `w`, is rejected |
| Urls.PortOrUserinfoNeverMatches | main.py:61-67 | a netloc with a port, user information or a bracket never matches, and a URL that `urlparse` rejects is not a Twitter URL |
| Urls.OneWwwOnly | main.py:66 | only one `www.` is removed: `www.www.x.com` is rejected |
| Urls.TwitterUrlExamples | tests/test_api.py:87-100 | the test suite's positive cases hold: every host, bare and with `www.` |
| Urls.NonTwitterExamples | tests/test_api.py:102-106 | the test suite's negative cases hold: YouTube, TikTok and Instagram links are rejected |
| Urls.MatchLength | main.py:37 | a match at the start is a whole `https?://\S+` token and ends at whitespace or the end of the text (greedy `\S+`) |
| Urls.MatchWholeToken | main.py:37 | a URL token followed by whitespace or the end is matched whole |
| Urls.FindUrls | main.py:37-41 | every match `findall` returns is a URL token |
| Urls.FindUrlsStep | main.py:41 | a token followed by a space is taken as one link, and the scan resumes after the space |
| Urls.ExtractUrls | main.py:40-41 | every extracted link is a URL token, and a message without text has none |
| Urls.NoMatchBeforeSpace | main.py:37 | no match starts at text that does not begin with `http://` or `https://` before its first space |
| Urls.SkipText | main.py:37-41 | words in which no link begins, then a space, are skipped: the links found are those of the rest |
| Urls.LinkAfterWords | main.py:40-41 | a link after such words is found: `extract_urls(words + " " + link) == [link]`, as for `see https://x.com/a` |
| Urls.ExtractJoinedUrls | main.py:40-41 | for URL tokens joined by spaces, extraction gives back the same tokens in order |
| Allowlist.AllowedIds | main.py:44-57 | defines the allow-list as a value: empty for a blank or unset variable, else the integers of the stripped comma parts; `Allowlist.ParseAllowlist` is proved equal to it |
| Allowlist.ParseAllowlist | main.py:44-57 | the loop computes the set of integers the stripped comma parts spell; a blank or unset variable gives the empty set |
| Allowlist.PartIdIsInt | main.py:50-54 | stripping a part before `int()` parses it the same as `int()` alone |
| Allowlist.IdsOfMembership | main.py:49-56 | an id is in the allow-list iff some comma part, stripped, parses to it |
| Allowlist.InvalidPartIgnored | main.py:51-56 | removing a blank or non-integer part leaves the allow-list unchanged |
| Allowlist.AllowlistRoundTrip | main.py:44-57 | ids written comma-separated parse back to exactly that set of ids |
| Allowlist.NoValidIdLetsEveryoneIn | main.py:293-296 | a value in which no comma part is an integer, such as `abc`, gives the empty allow-list and so lets everybody in |
| Allowlist.BlankValueLetsEveryoneIn | main.py:45-47 | a value of whitespace only gives the empty allow-list, as an unset one does, and so lets everybody in |
| Allowlist.AccessDenied | main.py:293-296 | defines the refusal: a non-empty allow-list and a sender without an id or with an id not on it; characterised by `Allowlist.AccessByList` |
| Allowlist.AccessByList | main.py:293-296 | with a list set, a user is let in iff their id is on it, and a sender without an id is refused; with it blank or unset, everyone is let in |
| PyInt.ParseInt | main.py:54 | `int()` on text: a string without whitespace at its ends is read as a bare literal; which whitespace it skips is stated by the two lemmas below |
| PyInt.SeparatorMarginRejected | main.py:189 | `int()` does not skip a leading U+001C to U+001F, though `strip()` removes it: `int("\x1c4")` and `int("\x1c4\xa0")` raise |
| PyInt.MarginsAgreeWithStrip | main.py:189 | on a string without U+001C to U+001F, `int()` skips exactly the whitespace `strip()` removes |
| PyInt.IntRoundTrip | main.py:54 | `int(str(n)) == n` for every integer, in a model without the interpreter's digit limit |
| Text.SplitJoin | main.py:49 | joining comma-free parts with commas and splitting again gives the parts back |
| Text.JoinSplit | main.py:49 | splitting on commas loses nothing: joining the parts with commas gives the string back |
| Paths.Suffix | main.py:116 | `suffix` is empty, or a dot followed by at least one character and no other dot |
| Paths.StemThenSuffix | main.py:116-117 | a name is its stem followed by its suffix, and a non-empty name has a non-empty stem |
| Paths.Mp4Sibling | main.py:117 | `with_suffix(".mp4")` fails exactly on a path whose name is empty |
| Paths.SiblingShape | main.py:117 | the sibling keeps the directory and the stem and has suffix `.mp4` |
| Paths.NormalizeDownloadPath | main.py:114-120 | defines `normalize_download_path` on a file-system snapshot; its cases are stated by `Paths.NormalizeCases` |
| Paths.NormalizeCases | main.py:114-120 | the path changes iff the declared file exists without a `.mp4` suffix and its `.mp4` sibling exists; an error occurs iff that path exists and its name is empty; any result is the declared path or an existing file |
| Paths.MissingDeclaredFileKept | main.py:116 | a declared file that does not exist is returned unchanged |
| Paths.Mp4Kept | main.py:116 | a path already ending in `.mp4`, in any letter case, is returned unchanged |
| Paths.NormalizedSibling | main.py:117-119 | a replaced path is an existing file in the same directory with the same stem and suffix `.mp4` |
| Paths.NormalizeIdempotent | main.py:114-120 | normalizing twice gives the same result as normalizing once |
| Paths.JoinPath | main.py:181 | `dir / name` appends `name` to the directory with one `/`, or is `name` alone for the current directory |
| Paths.JoinPathName | main.py:181 | `dir / name` has `name` as its last component |
| Transcode.ToolPath | main.py:125 | the tool path is what `which` found when it found one, and the fallback otherwise |
| Transcode.GetVideoInfo | main.py:123-152 | a missing ffprobe raises `ffprobe not found`; a timeout and any exception of the run that is not caught propagate; a probe that exits always gives stream info |
| Transcode.FailedProbeRemuxes | main.py:141-152 | a non-zero exit or unreadable output gives `{}`, which is not fatal and leads to the plain remux command |
| Transcode.ProbedStreamUsed | main.py:145-149 | a probe that exits 0 and reports a stream yields that stream |
| Transcode.SarNeedsFix | main.py:184-194 | defines the SAR decision as a value; `Transcode.CheckSar` is proved equal to it and the lemmas below characterise it |
| Transcode.CheckSar | main.py:183-194 | the flag is raised exactly when the SAR is not one of `""`, `1:1`, `N/A` and `0:1`, splits into two integers, and has a positive denominator different from the numerator |
| Transcode.RatioNeedsFix | main.py:185-191 | for a SAR written `n:d`, a fix is needed iff `d > 0`, `n != d`, and the SAR is not `0:1` |
| Transcode.ZeroNumeratorNeedsFix | main.py:185-191 | `0:d` with `d > 1` does need a fix |
| Transcode.MissingSarNeedsNoFix | main.py:176 | a stream without a SAR (or `{}`) reads as `1:1` and needs no fix |
| Transcode.MalformedSarNeedsNoFix | main.py:186-194 | a SAR that is not two `int()`-parsable parts never needs a fix (the `ValueError` is swallowed) |
| Transcode.SeparatorSarNeedsNoFix | main.py:187-194 | a numerator that begins with U+001C to U+001F gives no fix: the split parts are not stripped and `int()` rejects it |
| Transcode.SeparatorSarExample | main.py:187-194 | the SARs `"\x1c4:3"` and `"\x1c4\xa0:3"` need no fix |
| Transcode.FfmpegArgs | main.py:196-215 | defines the choice between the two command lines; their shape is stated by `Transcode.ArgsShape` |
| Transcode.PlannedCommand | main.py:181-215 | defines the command run for the probed stream: the tool, the input, the output path and the SAR's decision; `Transcode.OnlySarDecides` states what it depends on |
| Transcode.ArgsShape | main.py:196-215 | both command lines are tool, `-y -i input`, options, then `-movflags +faststart output`; the options are the re-encoding ones exactly when a fix is needed, and otherwise `-c copy` |
| Transcode.OptionsDiffer | main.py:199-215 | only re-encoding filters the video and names libx264; it copies the audio |
| Transcode.OutputPath | main.py:181 | defines `output_dir / f"{path.stem}.fixed.mp4"`; its name is stated by `Transcode.OutputPathName` |
| Transcode.OutputPathName | main.py:181 | the output is named `<input stem>.fixed.mp4`, with suffix `.mp4` and stem `<input stem>.fixed` |
| Transcode.Truncate | main.py:225 | the detail is a prefix of the error output of at most 500 characters, and all of it when it is shorter |
| Transcode.FinishRun | main.py:218-228 | the run succeeds iff ffmpeg exited 0 and the output exists afterwards, and then the result is the output path; an exception of the run propagates, a timeout raises `ffmpeg timed out`, a non-zero exit raises `ffmpeg failed` with exactly `stderr[:500]` as its detail, and a missing output raises `did not produce output file` |
| Transcode.TranscodeToHevc | main.py:155-231 | defines `transcode_to_hevc` on the snapshot, tool locations and run outcomes; the lemmas below state its order of checks and what success and failure mean |
| Transcode.InputChecksFirst | main.py:158-170 | without ffmpeg nothing else is checked; a missing input is reported before an empty one; success needs ffmpeg and a non-empty input |
| Transcode.SuccessIsOutputPath | main.py:181-231 | a result is always `output_dir/<stem>.fixed.mp4` |
| Transcode.SuccessNeedsProbe | main.py:125-139 | success needs ffprobe and a probe that did not time out |
| Transcode.SuccessMeansOutputWritten | main.py:218-231 | success means ffmpeg exited 0 on the planned command and the output then exists |
| Transcode.FailureDetailBounded | main.py:223-225 | an `ffmpeg failed` error comes from a non-zero exit; its detail is exactly `stderr[:500]` of the run of the planned command |
| Transcode.OnlyPlannedCommandRuns | main.py:196-219 | the result depends on ffmpeg only through the one command that is run |
| Transcode.OnlySarDecides | main.py:173-181 | streams that agree on the SAR get the same command; width, height and DAR play no part |
| Download.Candidates | main.py:239-241 | each candidate is non-blank and already stripped, and there are at most as many as parts |
| Download.CandidatesAppend | main.py:239-241 | candidates keep the order of their parts: the candidates of `a + b` are those of `a`, then those of `b` |
| Download.ApiCandidates | main.py:236-245 | there is always at least one candidate |
| Download.ApiOrderRoundTrip | main.py:236-241 | back-end names written comma-separated in the order variable become the candidates, in that order |
| Download.BlankOrderFallsBack | main.py:242-245 | an order of blank parts gives one candidate: `YTDLP_TWITTER_API`, else `TWITTER_API`, else `syndication` |
| Download.DefaultOrder | main.py:236-238 | by default the order is `graphql`, `legacy`, `syndication` |
| Download.CandidatesOne | main.py:239-241 | a single part gives its stripped self as candidate, or none when it is blank |
| Download.Attempts | main.py:249 | a Twitter URL tries each candidate in order; any other URL makes one attempt without an API |
| Download.AttemptSuccessName | main.py:255-264 | a successful attempt returns `<stem>.fixed.mp4` for the normalized download, which exists and is non-empty |
| Download.RunAttempt | main.py:253-264 | defines one attempt: the yt-dlp error, the path error of `normalize_download_path`, or the outcome of `transcode_to_hevc` on the normalized file; stated by `Download.AttemptSuccessName` |
| Download.Expected | main.py:248-273 | the reference result: the path of the first success, else the last failure's error, else `Download failed` for no attempt; `Download.RunAttempts` is proved equal to it |
| Download.AttemptsMade | main.py:252-269 | the number of attempts made is at most the number of attempts: up to the first success, or all |
| Download.FirstSuccess | main.py:252-264 | the first success, with only failures before it, or `None` when every attempt failed |
| Download.RunAttempts | main.py:248-273 | the loop returns the first success's path, or raises the last error; it makes the attempts up to the first success, in order |
| Download.DownloadWithYtDlp | main.py:234-273 | the same, for the attempts the URL and environment choose |
| Download.FirstSuccessWins | main.py:252-264 | attempts after the first success are never made, so their outcomes do not matter |
| Download.LastErrorWins | main.py:265-272 | when every attempt fails, all are made and the last error is raised |
| Download.AlwaysAttempted | main.py:242-273 | at least one attempt is always made, so `Download failed` is never raised |
| Download.NonTwitterSingleAttempt | main.py:249-269 | a non-Twitter URL makes exactly one attempt, and its outcome is the result |
| Download.TwitterTriesInOrder | main.py:249-267 | a Twitter URL's attempts are its candidates, in order, each with its API |
| Delivery.MaxUploadSize | main.py:330-331 | defines the limit: 2000 MiB with a local Bot API server, else 50 MiB; stated by `Delivery.GateMonotone` and `Delivery.AtLimitSent` |
| Delivery.LimitText | main.py:330-332 | defines the limit's text; `Delivery.LimitTextNamesLimit` ties it to the limit |
| Delivery.Deliver | main.py:320-339 | defines what happens to a downloaded file: missing, refused with its size, or sent; characterised by `Delivery.GateDecides` |
| Delivery.GateDecides | main.py:320-339 | a missing file is reported; an existing one is sent iff its size is at most the limit and refused iff it is larger |
| Delivery.AtLimitSent | main.py:331-334 | a file of exactly the limit is sent; one byte more is refused |
| Delivery.GateMonotone | main.py:331-334 | if a smaller file is refused, so is a larger one, and the local limit is at least the public one |
| Delivery.LimitTextNamesLimit | main.py:331-332 | the status text names the applied limit in whole MiB (`2000MB` or `50MB`) |
| Delivery.ReportedSizeAtLeastLimit | main.py:334-337 | the reported size, rounded down to whole MiB, is never below the limit; one byte over 50 MiB shows as `50MB > 50MB` |
| Delivery.GateExamples | main.py:328-339 | 60 MiB is refused as `60MB > 50MB` without a local server and sent with one; 40 MiB is sent |

## Left out

- The aiogram handlers and the rest of `handle_message` are not modelled:
  the messages, chat actions, the loop over links, the temporary directory,
  the bot set-up and signal handling. Only the access check and the size
  gate are modelled, because the other parts are Telegram I/O.
- `build_ydl_opts` and everything yt-dlp itself does (extraction, the
  output template, cookies, retries) are not modelled. An attempt enters
  the model as the file name yt-dlp reports, or its error message.
- Nothing runs ffprobe or ffmpeg, or times them out. The outcome of each
  run is a parameter. ffprobe's JSON is not decoded: its first stream enters
  the model already read into `StreamInfo`, and output that is not JSON is
  `None`.
- Logging is not modelled. Neither are the texts of error messages.
  `FfmpegFailed` carries its detail; the other errors are constructors.
- Paths are strings in `pathlib`'s normal form: no `//`, no trailing `/`,
  no `.` parts. `pathlib` would normalize other spellings first.
- `lower()` is modelled on ASCII letters only. Full Unicode lowering cannot
  change `is_twitter_url` or the `.mp4` test in ways that matter here. Only
  two non-ASCII characters lower to text holding an ASCII letter. KELVIN SIGN lowers to `k`,
  and no compared string contains `k`. U+0130 lowers to `i` followed by
  U+0307, which is not ASCII, so the result still fails every comparison.
- `int()` accepts ASCII digits. Other Unicode decimal digits are left out.
- PyInt.ParseInt: the interpreter's limit on integer and string conversion
  (4300 digits by default since Python 3.11) is not modelled. On a longer
  decimal string `int()` raises `ValueError`. The model parses it: an
  allow-list part that long would be skipped, and a SAR part that long
  would give no fix. The limit depends on the interpreter's configuration.
- PyInt.IntRoundTrip: holds for the model's `str()` and `int()`, which
  have no digit limit. Python's `str()` raises `ValueError` on an integer of
  more than 4300 digits.
- From `urlsplit`, the validation of bracketed IPv6 hosts and the NFKC
  check of the netloc are left out, along with the parts after the
  netloc. Either rejects only netlocs that are not in the Twitter host set
  anyway.
- Download.RunAttempts: the outcome of every attempt the loop may make is
  given in advance, one per attempt (`|outcomes| == |attempts|`). The
  source computes each outcome when it reaches that attempt. A URL that is
  not a Twitter link has one attempt, so `stopAfterFailure` comes with a
  single attempt.
- Download.DownloadWithYtDlp: outcomes are given in advance in the same way,
  one per attempt the URL and environment choose.
- Concurrency is not modelled: several messages handled at once, and other
  processes changing the file system between checks. Each function sees one
  snapshot of the file system, or in `FinishRun` the snapshot after ffmpeg
  has run.
