/** The size gate of `handle_message` (main.py): after a download the file
    must still exist, and it is sent only when its size is within the upload
    limit of the Bot API server in use. */
module Delivery {
  import opened Wrappers
  import opened PyInt
  import opened Paths

  const MiB: nat := 1024 * 1024

  /** Whether `TELEGRAM_LOCAL_API_URL` is set to something non-empty. */
  predicate UsesLocalApi(localApiUrl: Option<string>) {
    localApiUrl.Some? && localApiUrl.value != ""
  }

  /** `max_size`: 2000 MiB through a local Bot API server, 50 MiB otherwise. */
  function MaxUploadSize(localApiUrl: Option<string>): nat {
    if UsesLocalApi(localApiUrl) then 2000 * MiB else 50 * MiB
  }

  /** `limit_text`, the limit as the status message names it. */
  function LimitText(localApiUrl: Option<string>): string {
    if UsesLocalApi(localApiUrl) then "2000MB" else "50MB"
  }

  /** What happens to a downloaded file. */
  datatype Delivery =
    | FileMissing                              // "Download failed: <url>"
    | TooLarge(sizeMb: nat, limitText: string)  // "Video too large (<sizeMb>MB > <limitText> limit)"
    | SendVideo(path: string)

  /** The checks `handle_message` makes before `send_video`. */
  function Deliver(path: string, files: Files, localApiUrl: Option<string>): Delivery {
    if path !in files then FileMissing
    else if files[path] > MaxUploadSize(localApiUrl) then TooLarge(files[path] / 1024 / 1024, LimitText(localApiUrl))
    else SendVideo(path)
  }

  /** An existing file is sent exactly when its size is at most the limit, and
      refused exactly when it exceeds the limit; only a missing file is
      reported missing. */
  lemma GateDecides(path: string, files: Files, localApiUrl: Option<string>)
    ensures Deliver(path, files, localApiUrl).FileMissing? <==> path !in files
    ensures Deliver(path, files, localApiUrl) == SendVideo(path) <==>
      path in files && files[path] <= MaxUploadSize(localApiUrl)
    ensures Deliver(path, files, localApiUrl).TooLarge? <==>
      path in files && files[path] > MaxUploadSize(localApiUrl)
  {
  }

  /** A file exactly at the limit is sent; one byte more is refused. */
  lemma AtLimitSent(path: string, files: Files, localApiUrl: Option<string>)
    requires path in files
    ensures files[path] == MaxUploadSize(localApiUrl) ==> Deliver(path, files, localApiUrl) == SendVideo(path)
    ensures files[path] == MaxUploadSize(localApiUrl) + 1 ==> Deliver(path, files, localApiUrl).TooLarge?
  {
  }

  /** A larger file is refused whenever a smaller one is, and the local
      server accepts everything the public one accepts. */
  lemma GateMonotone(size: nat, size': nat, localApiUrl: Option<string>)
    ensures size <= size' && size > MaxUploadSize(localApiUrl) ==> size' > MaxUploadSize(localApiUrl)
    ensures MaxUploadSize(None) <= MaxUploadSize(localApiUrl)
  {
  }

  /** The status text names the limit that is applied, in whole MiB. */
  lemma LimitTextNamesLimit(localApiUrl: Option<string>)
    ensures MaxUploadSize(localApiUrl) % MiB == 0
    ensures LimitText(localApiUrl) == NatToString(MaxUploadSize(localApiUrl) / MiB) + "MB"
  {
    if UsesLocalApi(localApiUrl) {
      assert MaxUploadSize(localApiUrl) / MiB == 2000;
      assert NatToString(2000) == "2000";
    } else {
      assert MaxUploadSize(localApiUrl) / MiB == 50;
      assert NatToString(50) == "50";
    }
  }

  /** The size in the refusal is rounded down to whole MiB, so it is never
      below the limit, but may equal it: a file one byte over 50 MiB is
      reported as `50MB > 50MB`. */
  lemma ReportedSizeAtLeastLimit(path: string, files: Files, localApiUrl: Option<string>)
    requires Deliver(path, files, localApiUrl).TooLarge?
    ensures Deliver(path, files, localApiUrl).sizeMb >= MaxUploadSize(localApiUrl) / MiB
    ensures files[path] == MaxUploadSize(localApiUrl) + 1 ==>
      Deliver(path, files, localApiUrl).sizeMb == MaxUploadSize(localApiUrl) / MiB
  {
    var size := files[path];
    var limit := MaxUploadSize(localApiUrl);
    assert size / 1024 / 1024 == size / MiB;
    WholeMiBMonotone(limit, size);
    if size == limit + 1 {
      assert limit % MiB == 0 by { LimitTextNamesLimit(localApiUrl); }
      assert (limit + 1) / MiB == limit / MiB;
    }
  }

  lemma WholeMiBMonotone(a: nat, b: nat)
    requires a <= b
    ensures a / MiB <= b / MiB
  {
    assert a == (a / MiB) * MiB + a % MiB;
    assert b == (b / MiB) * MiB + b % MiB;
  }

  /** Without a local server, a 60 MiB file is refused as `60MB > 50MB` and a
      40 MiB file is sent; through a local server the 60 MiB file is sent. */
  lemma GateExamples(path: string)
    ensures Deliver(path, map[path := 60 * MiB], None) == TooLarge(60, "50MB")
    ensures Deliver(path, map[path := 40 * MiB], None) == SendVideo(path)
    ensures Deliver(path, map[path := 60 * MiB], Some("http://localhost:8081")) == SendVideo(path)
  {
  }
}
