/** `transcode_to_hevc` and `get_video_info` (main.py): the checks made before
    probing, the sample-aspect-ratio (SAR) decision, the two `ffmpeg` command
    lines and the output name. Despite its name the re-encoding path uses
    libx264. `ffprobe` and `ffmpeg` are not run: how a run ends is a parameter. */
module Transcode {
  import opened Wrappers
  import opened Text
  import opened PyInt
  import opened Paths

  /** The keys of the first video stream that ffprobe reports; an absent key is `None`. */
  datatype StreamInfo = StreamInfo(width: Option<int>, height: Option<int>, sar: Option<string>, dar: Option<string>)

  /** The empty dictionary `{}` that `get_video_info` falls back to. */
  const NoStream := StreamInfo(None, None, None, None)

  /** How the `ffprobe` run ended: it raised an exception that `get_video_info`
      does not catch (`OSError` when the tool cannot be started,
      `UnicodeDecodeError` when its output is not text, `AttributeError` when
      the JSON is not an object), it timed out, or it exited; `stream` is
      `None` when its standard output is not JSON or lists no stream. */
  datatype ProbeRun = ProbeRaised(exception: string) | ProbeTimedOut | ProbeExited(returnCode: int, stream: Option<StreamInfo>)

  /** How an `ffmpeg` run ended: it raised `OSError` or `UnicodeDecodeError`,
      it timed out, or it exited; `after` is the file system once it has exited. */
  datatype FfmpegRun = RunRaised(exception: string) | RunTimedOut | RunExited(returnCode: int, stderr: string, after: Files)

  /** Where `shutil.which` finds the two tools, if anywhere. */
  datatype Tools = Tools(ffmpegWhich: Option<string>, ffprobeWhich: Option<string>)

  /** The `RuntimeError`s `transcode_to_hevc` raises, and the exceptions of
      the two runs that it lets through: the probe's `TimeoutExpired`, and
      whatever either run raises that is not caught. */
  datatype TranscodeError =
    | FfmpegNotFound
    | InputMissing(path: string)
    | InputEmpty(path: string)
    | FfprobeNotFound
    | FfprobeTimedOut
    | FfprobeRaised(exception: string)
    | FfmpegTimedOut
    | FfmpegRaised(exception: string)
    | FfmpegFailed(detail: string)
    | NoOutput

  const FfmpegFallback := "/usr/local/bin/ffmpeg"
  const FfprobeFallback := "/usr/local/bin/ffprobe"
  const MaxErrorDetail := 500

  /** `shutil.which(tool) or fallback` */
  function ToolPath(which: Option<string>, fallback: string): (p: string)
    ensures which.Some? && which.value != "" ==> p == which.value
    ensures which.None? || which.value == "" ==> p == fallback
  {
    OrElse(which, fallback)
  }

  /** `get_video_info(path)`: a missing `ffprobe` raises, a timeout propagates,
      and a failed run or unreadable output gives `{}`. */
  function GetVideoInfo(ffprobe: string, files: Files, probe: ProbeRun): (r: Result<StreamInfo, TranscodeError>)
    ensures ffprobe !in files ==> r == Err(FfprobeNotFound)
    ensures ffprobe in files && probe.ProbeTimedOut? ==> r == Err(FfprobeTimedOut)
    ensures ffprobe in files && probe.ProbeRaised? ==> r == Err(FfprobeRaised(probe.exception))
    ensures r.Ok? <==> ffprobe in files && probe.ProbeExited?
  {
    if ffprobe !in files then Err(FfprobeNotFound)
    else match probe
      case ProbeRaised(exception) => Err(FfprobeRaised(exception))
      case ProbeTimedOut => Err(FfprobeTimedOut)
      case ProbeExited(code, stream) => if code != 0 then Ok(NoStream) else Ok(stream.GetOr(NoStream))
  }

  /** `video_info.get("sample_aspect_ratio", "1:1")` */
  function ProbedSar(info: StreamInfo): string {
    info.sar.GetOr("1:1")
  }

  /** Whether the SAR calls for re-encoding: it is not blank, not one of
      `1:1`, `N/A` and `0:1`, splits on `:` into exactly two parts that `int`
      accepts, with a positive denominator different from the numerator. */
  predicate SarNeedsFix(sar: string) {
    && sar != "" && sar != "1:1" && sar != "N/A" && sar != "0:1"
    && var parts := Split(sar, ':');
    && |parts| == 2
    && ParseInt(parts[0]).Some? && ParseInt(parts[1]).Some?
    && ParseInt(parts[1]).value > 0
    && ParseInt(parts[0]).value != ParseInt(parts[1]).value
  }

  /** The SAR check as `transcode_to_hevc` performs it: the flag starts false
      and is raised only once every test has passed; a `ValueError` from `int`
      leaves it false. */
  method CheckSar(sar: string) returns (needsFix: bool)
    ensures needsFix == SarNeedsFix(sar)
  {
    needsFix := false;
    if sar != "" && sar != "1:1" && sar != "N/A" && sar != "0:1" {
      var sarParts := Split(sar, ':');
      if |sarParts| == 2 {
        var num := ParseInt(sarParts[0]);
        if num.Some? {
          var den := ParseInt(sarParts[1]);
          if den.Some? {
            if den.value > 0 && num.value != den.value {
              needsFix := true;
            }
          }
        }
      }
    }
  }

  /** `"{n}:{d}"` */
  function Ratio(n: int, d: int): string {
    IntToString(n) + ":" + IntToString(d)
  }

  /** A decimal spelling holds no `:`. */
  lemma SpellingHasNoColon(n: int)
    ensures ':' !in IntToString(n)
  {
    var s := IntToString(n);
    assert forall i :: 0 <= i < |s| ==> IsDigit(s[i]) || s[i] == '-';
  }

  /** A ratio splits into its two spellings. */
  lemma RatioParts(n: int, d: int)
    ensures Split(Ratio(n, d), ':') == [IntToString(n), IntToString(d)]
  {
    SpellingHasNoColon(n);
    SpellingHasNoColon(d);
    SplitFirst(IntToString(n), ':', IntToString(d));
    SplitNoSep(IntToString(d), ':');
  }

  /** Two ratios spell the same text only when their terms agree. */
  lemma RatioInjective(n: int, d: int, n': int, d': int)
    requires Ratio(n, d) == Ratio(n', d')
    ensures n == n' && d == d'
  {
    RatioParts(n, d);
    RatioParts(n', d');
    IntRoundTrip(n);
    IntRoundTrip(n');
    IntRoundTrip(d);
    IntRoundTrip(d');
  }

  /** For a ratio written `n:d`, a fix is needed exactly when the denominator
      is positive and differs from the numerator, except for the literal `0:1`. */
  lemma RatioNeedsFix(n: int, d: int)
    ensures SarNeedsFix(Ratio(n, d)) <==> d > 0 && n != d && !(n == 0 && d == 1)
  {
    RatioParts(n, d);
    IntRoundTrip(n);
    IntRoundTrip(d);
    RatioExclusions(n, d);
  }

  /** Which ratios spell the SARs that the code excludes by name. */
  lemma RatioExclusions(n: int, d: int)
    ensures Ratio(n, d) != "" && Ratio(n, d) != "N/A"
    ensures Ratio(n, d) == "1:1" <==> n == 1 && d == 1
    ensures Ratio(n, d) == "0:1" <==> n == 0 && d == 1
  {
    var s := Ratio(n, d);
    RatioParts(n, d);
    assert s != "";
    NaOneLiteral();
    assert s != "N/A";
    assert s == "1:1" ==> n == 1 && d == 1 by {
      if s == "1:1" {
        OneExample();
        RatioInjective(n, d, 1, 1);
      }
    }
    assert n == 1 && d == 1 ==> s == "1:1" by {
      if n == 1 && d == 1 {
        OneExample();
      }
    }
    assert s == "0:1" ==> n == 0 && d == 1 by {
      if s == "0:1" {
        ZeroOneExample();
        RatioInjective(n, d, 0, 1);
      }
    }
    assert n == 0 && d == 1 ==> s == "0:1" by {
      if n == 0 && d == 1 {
        ZeroOneExample();
      }
    }
  }

  /** `N/A` splits into a single part. */
  lemma NaOneLiteral()
    ensures Split("N/A", ':') == ["N/A"]
  {
    SplitNoSep("N/A", ':');
  }

  lemma OneExample()
    ensures Ratio(1, 1) == "1:1"
  {
    assert NatToString(1) == "1";
  }

  lemma ZeroOneExample()
    ensures Ratio(0, 1) == "0:1"
  {
    assert NatToString(0) == "0" && NatToString(1) == "1";
  }

  /** A zero numerator over a denominator greater than 1, such as `0:5`,
      calls for a fix. */
  lemma ZeroNumeratorNeedsFix(d: int)
    requires d > 1
    ensures SarNeedsFix(Ratio(0, d))
  {
    RatioNeedsFix(0, d);
  }

  /** A stream without a SAR key reads as `1:1`, which needs no fix; neither
      does the empty probe result. */
  lemma MissingSarNeedsNoFix(info: StreamInfo)
    requires info.sar.None?
    ensures !SarNeedsFix(ProbedSar(info))
  {
  }

  /** A SAR that does not split into exactly two parts, or whose parts `int`
      rejects, never calls for a fix. */
  lemma MalformedSarNeedsNoFix(sar: string)
    requires |Split(sar, ':')| != 2 || ParseInt(Split(sar, ':')[0]).None?
      || ParseInt(Split(sar, ':')[|Split(sar, ':')| - 1]).None?
    ensures !SarNeedsFix(sar)
  {
  }

  /** A numerator that begins with one of the separators U+001C to U+001F,
      as in `"\x1c4:3"`, gives no fix: the parts of `split(":")` are not
      stripped, and `int()` does not skip those characters. */
  lemma SeparatorSarNeedsNoFix(num: string, den: string)
    requires num != [] && IsSeparator(num[0]) && ':' !in num
    ensures !SarNeedsFix(num + ":" + den)
  {
    SplitFirst(num, ':', den);
    SeparatorMarginRejected(num);
  }

  /** The SARs `"\x1c4:3"` and `"\x1c4\xa0:3"` need no fix, although `"4:3"` does. */
  lemma SeparatorSarExample()
    ensures !SarNeedsFix("\U{1c}4:3")
    ensures !SarNeedsFix("\U{1c}4\U{a0}:3")
  {
    SeparatorSarNeedsNoFix("\U{1c}4", "3");
    assert "\U{1c}4" + ":" + "3" == "\U{1c}4:3";
    SeparatorSarNeedsNoFix("\U{1c}4\U{a0}", "3");
    assert "\U{1c}4\U{a0}" + ":" + "3" == "\U{1c}4\U{a0}:3";
  }

  /** The re-encoding command: scale to square pixels with even dimensions,
      libx264 at the ultrafast preset and CRF 18, the audio copied. */
  function ReencodeArgs(ffmpeg: string, input: string, output: string): seq<string> {
    [ffmpeg, "-y", "-i", input,
     "-vf", "scale='trunc(iw*sar/2)*2:trunc(ih/2)*2',setsar=1",
     "-c:v", "libx264", "-preset", "ultrafast", "-crf", "18",
     "-c:a", "copy",
     "-movflags", "+faststart",
     output]
  }

  /** The remuxing command: every stream copied. */
  function RemuxArgs(ffmpeg: string, input: string, output: string): seq<string> {
    [ffmpeg, "-y", "-i", input, "-c", "copy", "-movflags", "+faststart", output]
  }

  /** The command `transcode_to_hevc` runs. */
  function FfmpegArgs(ffmpeg: string, input: string, output: string, needsFix: bool): seq<string> {
    if needsFix then ReencodeArgs(ffmpeg, input, output) else RemuxArgs(ffmpeg, input, output)
  }

  /** The options between the input and the output that re-encode. */
  const ReencodeOptions := ["-vf", "scale='trunc(iw*sar/2)*2:trunc(ih/2)*2',setsar=1",
                            "-c:v", "libx264", "-preset", "ultrafast", "-crf", "18",
                            "-c:a", "copy"]

  /** The options between the input and the output that remux. */
  const RemuxOptions := ["-c", "copy"]

  /** Both commands name the tool, overwrite without asking, read the input,
      move the index to the front and write the output last; in between come
      the re-encoding options exactly when a fix is needed, and the copy
      option otherwise. */
  lemma ArgsShape(ffmpeg: string, input: string, output: string, needsFix: bool)
    ensures var argv := FfmpegArgs(ffmpeg, input, output, needsFix);
      && |argv| >= 9
      && argv[..4] == [ffmpeg, "-y", "-i", input]
      && argv[|argv| - 3..] == ["-movflags", "+faststart", output]
      && argv[4..|argv| - 3] == (if needsFix then ReencodeOptions else RemuxOptions)
  {
  }

  /** Only the re-encoding options filter the video or name a video encoder. */
  lemma OptionsDiffer()
    ensures "-vf" in ReencodeOptions && "-vf" !in RemuxOptions
    ensures "libx264" in ReencodeOptions && "libx264" !in RemuxOptions
    ensures "-c:a" in ReencodeOptions && "copy" in ReencodeOptions
  {
    assert ReencodeOptions[0] == "-vf" && ReencodeOptions[3] == "libx264";
    assert ReencodeOptions[8] == "-c:a" && ReencodeOptions[9] == "copy";
  }

  /** `output_dir / f"{path.stem}.fixed.mp4"` */
  function OutputPath(input: string, outputDir: string): string {
    StemThenSuffix(Name(input));
    JoinPath(outputDir, Stem(Name(input)) + ".fixed.mp4")
  }

  /** `<stem>.fixed.mp4` has the suffix `.mp4` and the stem `<stem>.fixed`. */
  lemma FixedName(stem: string)
    ensures Suffix(stem + ".fixed.mp4") == ".mp4" && Stem(stem + ".fixed.mp4") == stem + ".fixed"
  {
    assert stem + ".fixed.mp4" == (stem + ".fixed") + ".mp4";
    Mp4Name(stem + ".fixed");
  }

  /** The output is named after the input's stem, with `.fixed` added before
      the `.mp4` suffix, and lies in the output directory. */
  lemma OutputPathName(input: string, outputDir: string)
    ensures var name := Name(OutputPath(input, outputDir));
      && name == Stem(Name(input)) + ".fixed.mp4"
      && Suffix(name) == ".mp4"
      && Stem(name) == Stem(Name(input)) + ".fixed"
  {
    var stem := Stem(Name(input));
    StemThenSuffix(Name(input));
    var name := stem + ".fixed.mp4";
    assert name[|name| - 4] == '.';
    JoinPathName(outputDir, name);
    FixedName(stem);
  }

  /** `stderr[:500]` */
  function Truncate(s: string, limit: nat): (r: string)
    ensures r <= s
    ensures |r| <= limit
    ensures |s| <= limit ==> r == s
    ensures |s| > limit ==> |r| == limit
  {
    if |s| <= limit then s else s[..limit]
  }

  /** The command that `transcode_to_hevc` hands to `ffmpeg` once the probe
      has reported `info`. */
  function PlannedCommand(input: string, outputDir: string, tools: Tools, info: StreamInfo): seq<string> {
    FfmpegArgs(ToolPath(tools.ffmpegWhich, FfmpegFallback), input, OutputPath(input, outputDir),
               SarNeedsFix(ProbedSar(info)))
  }

  /** A probe that exits with an error, or whose output cannot be read, is
      not fatal: the stream info is `{}`, which reads as SAR `1:1`, so the
      file is only remuxed. */
  lemma FailedProbeRemuxes(input: string, outputDir: string, tools: Tools, files: Files,
                           code: int, stream: Option<StreamInfo>)
    requires ToolPath(tools.ffprobeWhich, FfprobeFallback) in files
    requires code != 0 || stream.None?
    ensures GetVideoInfo(ToolPath(tools.ffprobeWhich, FfprobeFallback), files, ProbeExited(code, stream)) == Ok(NoStream)
    ensures PlannedCommand(input, outputDir, tools, NoStream)
         == RemuxArgs(ToolPath(tools.ffmpegWhich, FfmpegFallback), input, OutputPath(input, outputDir))
  {
    MissingSarNeedsNoFix(NoStream);
  }

  /** A probe that exits with status 0 and reports a stream yields that stream. */
  lemma ProbedStreamUsed(ffprobe: string, files: Files, info: StreamInfo)
    requires ffprobe in files
    ensures GetVideoInfo(ffprobe, files, ProbeExited(0, Some(info))) == Ok(info)
  {
  }

  /** How `transcode_to_hevc` reads the end of the `ffmpeg` run: an exception
      of the run propagates, a timeout and a non-zero exit raise, the latter
      with the first 500 characters of the error output, and the output must
      exist afterwards. */
  function FinishRun(run: FfmpegRun, output: string): (r: Result<string, TranscodeError>)
    ensures r.Ok? <==> run.RunExited? && run.returnCode == 0 && output in run.after
    ensures r.Ok? ==> r.value == output
    ensures run.RunRaised? ==> r == Err(FfmpegRaised(run.exception))
    ensures run.RunTimedOut? ==> r == Err(FfmpegTimedOut)
    ensures run.RunExited? && run.returnCode != 0 ==>
      r == Err(FfmpegFailed(Truncate(run.stderr, MaxErrorDetail)))
    ensures run.RunExited? && run.returnCode == 0 && output !in run.after ==> r == Err(NoOutput)
  {
    match run
    case RunRaised(exception) => Err(FfmpegRaised(exception))
    case RunTimedOut => Err(FfmpegTimedOut)
    case RunExited(code, stderr, after) =>
      if code != 0 then Err(FfmpegFailed(Truncate(stderr, MaxErrorDetail)))
      else if output !in after then Err(NoOutput)
      else Ok(output)
  }

  /** `transcode_to_hevc(path, output_dir)`: `ffmpeg` must exist, then the
      input must exist and be non-empty, then the probe runs, and `ffmpeg` is
      run on the planned command. */
  function TranscodeToHevc(input: string, outputDir: string, tools: Tools, files: Files,
                           probe: ProbeRun, ffmpeg: seq<string> -> FfmpegRun): Result<string, TranscodeError>
  {
    if ToolPath(tools.ffmpegWhich, FfmpegFallback) !in files then Err(FfmpegNotFound)
    else if input !in files then Err(InputMissing(input))
    else if files[input] == 0 then Err(InputEmpty(input))
    else match GetVideoInfo(ToolPath(tools.ffprobeWhich, FfprobeFallback), files, probe)
      case Err(e) => Err(e)
      case Ok(info) => FinishRun(ffmpeg(PlannedCommand(input, outputDir, tools, info)), OutputPath(input, outputDir))
  }

  /** The input checks come first and in order: without `ffmpeg`, nothing else
      is looked at; a missing input is reported before its size is read, and
      an empty input before anything is probed or run. */
  lemma InputChecksFirst(input: string, outputDir: string, tools: Tools, files: Files,
                         probe: ProbeRun, ffmpeg: seq<string> -> FfmpegRun)
    ensures var r := TranscodeToHevc(input, outputDir, tools, files, probe, ffmpeg);
      var found := ToolPath(tools.ffmpegWhich, FfmpegFallback) in files;
      && (!found ==> r == Err(FfmpegNotFound))
      && (found && input !in files ==> r == Err(InputMissing(input)))
      && (found && input in files && files[input] == 0 ==> r == Err(InputEmpty(input)))
      && (r.Ok? ==> found && input in files && files[input] > 0)
  {
  }

  /** A result is always the output path `output_dir/<stem>.fixed.mp4`. */
  lemma SuccessIsOutputPath(input: string, outputDir: string, tools: Tools, files: Files,
                            probe: ProbeRun, ffmpeg: seq<string> -> FfmpegRun)
    requires TranscodeToHevc(input, outputDir, tools, files, probe, ffmpeg).Ok?
    ensures TranscodeToHevc(input, outputDir, tools, files, probe, ffmpeg).value == OutputPath(input, outputDir)
  {
  }

  /** Success needs `ffprobe` and a probe that ran to its exit. */
  lemma SuccessNeedsProbe(input: string, outputDir: string, tools: Tools, files: Files,
                          probe: ProbeRun, ffmpeg: seq<string> -> FfmpegRun)
    requires TranscodeToHevc(input, outputDir, tools, files, probe, ffmpeg).Ok?
    ensures ToolPath(tools.ffprobeWhich, FfprobeFallback) in files && probe.ProbeExited?
  {
  }

  /** Success means `ffmpeg` exited with status 0 on the planned command and
      the output exists afterwards. */
  lemma SuccessMeansOutputWritten(input: string, outputDir: string, tools: Tools, files: Files,
                                  probe: ProbeRun, ffmpeg: seq<string> -> FfmpegRun)
    requires TranscodeToHevc(input, outputDir, tools, files, probe, ffmpeg).Ok?
    ensures GetVideoInfo(ToolPath(tools.ffprobeWhich, FfprobeFallback), files, probe).Ok?
    ensures var info := GetVideoInfo(ToolPath(tools.ffprobeWhich, FfprobeFallback), files, probe).value;
      var run := ffmpeg(PlannedCommand(input, outputDir, tools, info));
      run.RunExited? && run.returnCode == 0 && OutputPath(input, outputDir) in run.after
  {
  }

  /** The error detail of a failed `ffmpeg` run is its error output cut to
      its first 500 characters. */
  lemma FailureDetailBounded(input: string, outputDir: string, tools: Tools, files: Files,
                             probe: ProbeRun, ffmpeg: seq<string> -> FfmpegRun)
    requires TranscodeToHevc(input, outputDir, tools, files, probe, ffmpeg).Err?
    requires TranscodeToHevc(input, outputDir, tools, files, probe, ffmpeg).error.FfmpegFailed?
    ensures GetVideoInfo(ToolPath(tools.ffprobeWhich, FfprobeFallback), files, probe).Ok?
    ensures var detail := TranscodeToHevc(input, outputDir, tools, files, probe, ffmpeg).error.detail;
      var info := GetVideoInfo(ToolPath(tools.ffprobeWhich, FfprobeFallback), files, probe).value;
      var run := ffmpeg(PlannedCommand(input, outputDir, tools, info));
      && run.RunExited? && run.returnCode != 0
      && detail == Truncate(run.stderr, MaxErrorDetail)
  {
    var r := TranscodeToHevc(input, outputDir, tools, files, probe, ffmpeg);
    assert ToolPath(tools.ffmpegWhich, FfmpegFallback) in files && input in files && files[input] != 0;
    var probed := GetVideoInfo(ToolPath(tools.ffprobeWhich, FfprobeFallback), files, probe);
    assert probed.Ok?;
    var run := ffmpeg(PlannedCommand(input, outputDir, tools, probed.value));
    assert r == FinishRun(run, OutputPath(input, outputDir));
  }

  /** Only the planned command matters: two `ffmpeg` runners that agree on it
      give the same result. */
  lemma OnlyPlannedCommandRuns(input: string, outputDir: string, tools: Tools, files: Files,
                               probe: ProbeRun, ffmpeg: seq<string> -> FfmpegRun, ffmpeg': seq<string> -> FfmpegRun)
    requires GetVideoInfo(ToolPath(tools.ffprobeWhich, FfprobeFallback), files, probe).Ok?
    requires var info := GetVideoInfo(ToolPath(tools.ffprobeWhich, FfprobeFallback), files, probe).value;
      ffmpeg(PlannedCommand(input, outputDir, tools, info)) == ffmpeg'(PlannedCommand(input, outputDir, tools, info))
    ensures TranscodeToHevc(input, outputDir, tools, files, probe, ffmpeg)
         == TranscodeToHevc(input, outputDir, tools, files, probe, ffmpeg')
  {
  }

  /** The width, height and display aspect ratio are only logged: streams
      that agree on the SAR give the same command. */
  lemma OnlySarDecides(input: string, outputDir: string, tools: Tools, info: StreamInfo, info': StreamInfo)
    requires info.sar == info'.sar
    ensures PlannedCommand(input, outputDir, tools, info) == PlannedCommand(input, outputDir, tools, info')
  {
  }
}
