/**
  The decisions of `util/Tiktok.kt`: how the hidden WebView's two interceptors
  classify each URL they see, how the one-shot continuation turns a stream of
  such events into a single resolution, how the ten-second guard ends a wait no
  event decides, and when `saveFileToStorage` deletes a partly written file.
 */
module Tiktok {
  import opened Wrappers
  import opened Kotlin

  const NOTE_MARKER := "share/note/"
  const SLIDES_MARKER := "share/slides/"
  const CAPTCHA_MARKER := "/captcha/"
  const REMOVED_MARKER := "aweme-server-static-resource/reflow_notice_icon"
  const VIDEO_ID_KEY := "video_id="

  const MSG_IMAGE_TEXT := "不支持图文"
  const MSG_SEGMENTED := "不支持分段视频"
  const MSG_CAPTCHA := "出现验证码"
  const MSG_REMOVED := "作品已失效"

  /**
    The message kotlinx.coroutines gives the `TimeoutCancellationException` of
    the `withTimeout(1000 * 10)` guard around the resolution.
   */
  const TIMEOUT_MESSAGE := "Timed out waiting for 10000 ms"

  /** What resuming the continuation delivers: a video id, or an exception message. */
  datatype Resolution = VideoId(id: string) | Rejected(message: string)

  /** The two effects of `shouldOverrideUrlLoading`: its return value and a possible resume. */
  datatype NavigationVerdict = NavigationVerdict(suppress: bool, commit: Option<Resolution>)

  /**
    `shouldOverrideUrlLoading`: a note share is rejected before a slides share,
    and the navigation is suppressed exactly when it is not an http(s) URL,
    whatever was committed.
   */
  function OnNavigation(url: string): (v: NavigationVerdict)
    ensures v.suppress <==> !StartsWith(url, "http://") && !StartsWith(url, "https://")
    ensures v.commit.Some? <==> Contains(url, NOTE_MARKER) || Contains(url, SLIDES_MARKER)
    ensures v.commit.Some? ==> v.commit.value.Rejected?
    ensures Contains(url, NOTE_MARKER) ==> v.commit == Some(Rejected(MSG_IMAGE_TEXT))
    ensures !Contains(url, NOTE_MARKER) && Contains(url, SLIDES_MARKER) ==> v.commit == Some(Rejected(MSG_SEGMENTED))
    ensures v.commit == Some(Rejected(MSG_SEGMENTED)) ==> !Contains(url, NOTE_MARKER)
  {
    var commit :=
      if Contains(url, NOTE_MARKER) then Some(Rejected(MSG_IMAGE_TEXT))
      else if Contains(url, SLIDES_MARKER) then Some(Rejected(MSG_SEGMENTED))
      else None;
    NavigationVerdict(!(StartsWith(url, "http://") || StartsWith(url, "https://")), commit)
  }

  /**
    `url.substringAfter("video_id=").substringBefore("&")`: the value of the
    first `video_id=` parameter, up to the next `&` or the end.
   */
  function ExtractVideoId(url: string): (id: string)
    ensures '&' !in id
  {
    var id := SubstringBefore(SubstringAfter(url, VIDEO_ID_KEY), "&");
    ContainsChar(id, '&');
    id
  }

  /**
    The extracted id is exactly the text between the first `video_id=` and the
    next `&` (or the end of the URL).
   */
  lemma ExtractVideoIdIsFirstParameter(url: string)
    requires Contains(url, VIDEO_ID_KEY)
    ensures var id := ExtractVideoId(url);
      exists rest :: url == url[..IndexOf(url, VIDEO_ID_KEY).value] + VIDEO_ID_KEY + id + rest
        && (rest == [] || rest[0] == '&')
  {
    assert "&" == ['&'];
    AfterThenBefore(url, VIDEO_ID_KEY, '&');
  }

  /**
    `shouldInterceptRequest`: the captcha check, then the removed-content asset,
    then the video id; the first that matches is the one that resumes.
   */
  function OnRequest(url: string): (r: Option<Resolution>)
    ensures r.None? <==>
      !Contains(url, CAPTCHA_MARKER) && !Contains(url, REMOVED_MARKER) && !Contains(url, VIDEO_ID_KEY)
    ensures Contains(url, CAPTCHA_MARKER) ==> r == Some(Rejected(MSG_CAPTCHA))
    ensures !Contains(url, CAPTCHA_MARKER) && Contains(url, REMOVED_MARKER) ==> r == Some(Rejected(MSG_REMOVED))
    ensures r == Some(Rejected(MSG_REMOVED)) ==> !Contains(url, CAPTCHA_MARKER)
    ensures !Contains(url, CAPTCHA_MARKER) && !Contains(url, REMOVED_MARKER) && Contains(url, VIDEO_ID_KEY) ==>
      r == Some(VideoId(ExtractVideoId(url)))
    ensures r.Some? && r.value.VideoId? ==>
      !Contains(url, CAPTCHA_MARKER) && !Contains(url, REMOVED_MARKER) && '&' !in r.value.id
  {
    if Contains(url, CAPTCHA_MARKER) then Some(Rejected(MSG_CAPTCHA))
    else if Contains(url, REMOVED_MARKER) then Some(Rejected(MSG_REMOVED))
    else if Contains(url, VIDEO_ID_KEY) then Some(VideoId(ExtractVideoId(url)))
    else None
  }

  /** One callback of the WebView client. */
  datatype WebEvent = Navigation(url: string) | Request(url: string)

  /** The resolution an event tries to commit, if any. */
  function Decision(ev: WebEvent): Option<Resolution> {
    match ev
    case Navigation(url) => OnNavigation(url).commit
    case Request(url) => OnRequest(url)
  }

  /**
    The continuation as a one-shot gate: once resumed it keeps its value, later
    attempts change nothing.
   */
  function Resume(gate: Option<Resolution>, attempt: Option<Resolution>): (r: Option<Resolution>)
    ensures gate.Some? ==> r == gate
    ensures gate.None? ==> r == attempt
  {
    if gate.Some? then gate else attempt
  }

  /** The gate after the events of `evs` have been delivered in order. */
  function Deliver(gate: Option<Resolution>, evs: seq<WebEvent>): (r: Option<Resolution>)
    decreases |evs|
  {
    if |evs| == 0 then gate else Deliver(Resume(gate, Decision(evs[0])), evs[1..])
  }

  /** The outcome of one resolution attempt that saw the events `evs`. */
  function Resolve(evs: seq<WebEvent>): Option<Resolution> {
    Deliver(None, evs)
  }

  /** `i` is the first event of `evs` that makes a decision. */
  ghost predicate FirstDecisive(evs: seq<WebEvent>, i: nat) {
    i < |evs| && Decision(evs[i]).Some? && forall j :: 0 <= j < i ==> Decision(evs[j]).None?
  }

  /** An open gate ends with the first decision among the events, or stays open. */
  lemma {:induction false} DeliverFirstDecision(evs: seq<WebEvent>)
    ensures Deliver(None, evs).None? <==> forall i :: 0 <= i < |evs| ==> Decision(evs[i]).None?
    ensures Deliver(None, evs).Some? ==>
      exists i: nat :: FirstDecisive(evs, i) && Deliver(None, evs) == Decision(evs[i])
    decreases |evs|
  {
    if |evs| > 0 {
      var d := Decision(evs[0]);
      if d.Some? {
        DeliverClosed(d, evs[1..]);
        assert FirstDecisive(evs, 0);
      } else {
        DeliverFirstDecision(evs[1..]);
        forall i | 0 < i < |evs|
          ensures Decision(evs[i]) == Decision(evs[1..][i - 1])
        {
        }
        if Deliver(None, evs).Some? {
          var i: nat :| FirstDecisive(evs[1..], i) && Deliver(None, evs[1..]) == Decision(evs[1..][i]);
          assert FirstDecisive(evs, i + 1);
        }
      }
    }
  }

  /** A closed gate ignores every later event. */
  lemma {:induction false} DeliverClosed(gate: Option<Resolution>, evs: seq<WebEvent>)
    requires gate.Some?
    ensures Deliver(gate, evs) == gate
    decreases |evs|
  {
    if |evs| > 0 {
      DeliverClosed(gate, evs[1..]);
    }
  }

  /** The first decisive event fixes the outcome: what follows it cannot change it. */
  lemma {:induction false} ResolveIgnoresLaterEvents(evs: seq<WebEvent>, later: seq<WebEvent>)
    requires Resolve(evs).Some?
    ensures Resolve(evs + later) == Resolve(evs)
    decreases |evs|
  {
    DeliverAppend(None, evs, later);
    DeliverClosed(Resolve(evs), later);
  }

  lemma {:induction false} DeliverAppend(gate: Option<Resolution>, evs: seq<WebEvent>, later: seq<WebEvent>)
    ensures Deliver(gate, evs + later) == Deliver(Deliver(gate, evs), later)
    decreases |evs|
  {
    if |evs| == 0 {
      assert evs + later == later;
    } else {
      assert (evs + later)[0] == evs[0];
      assert (evs + later)[1..] == evs[1..] + later;
      DeliverAppend(Resume(gate, Decision(evs[0])), evs[1..], later);
    }
  }

  /** What ends a wait that no event decided. */
  datatype Guard = Deadline | CallerCancelled

  /**
    `getVideoId(url)`: the id if the first decisive event carried one; its
    message as an ordinary exception if it rejected the page; otherwise the
    guard's cancellation. `evs` are the events delivered before the guard fired.
   */
  function GetVideoId(evs: seq<WebEvent>, guard: Guard): (r: Result<string, Thrown>)
    ensures r.Success? <==> Resolve(evs).Some? && Resolve(evs).value.VideoId?
    ensures r.Success? ==> r.value == Resolve(evs).value.id && '&' !in r.value
    ensures r.Failure? && r.error.kind == Ordinary <==> Resolve(evs).Some? && Resolve(evs).value.Rejected?
    ensures r.Failure? && r.error.kind == Ordinary ==> r.error.message == Some(Resolve(evs).value.message)
    ensures r.Failure? && r.error.IsCancellation() <==> Resolve(evs).None?
    ensures r.Failure? && r.error.kind == TimeoutCancellation <==> Resolve(evs).None? && guard == Deadline
  {
    DecisionsCarryCleanIds(evs);
    match Resolve(evs)
    case Some(VideoId(id)) => Success(id)
    case Some(Rejected(message)) => Failure(Thrown(Ordinary, Some(message)))
    case None =>
      if guard == Deadline then Failure(Thrown(TimeoutCancellation, Some(TIMEOUT_MESSAGE)))
      else Failure(Thrown(Cancellation, None))
  }

  /** Event `i` is the first decisive one, a request with the id key and neither marker. */
  ghost predicate RequestCarriesId(evs: seq<WebEvent>, i: nat) {
    FirstDecisive(evs, i) && evs[i].Request? && Contains(evs[i].url, VIDEO_ID_KEY)
      && !Contains(evs[i].url, CAPTCHA_MARKER) && !Contains(evs[i].url, REMOVED_MARKER)
  }

  /**
    A resolved id is the `video_id` parameter of the first decisive event,
    which is a request carrying that key and neither marker.
   */
  lemma ResolvedIdComesFromRequest(evs: seq<WebEvent>)
    requires Resolve(evs).Some? && Resolve(evs).value.VideoId?
    ensures exists i: nat :: RequestCarriesId(evs, i) && Resolve(evs).value.id == ExtractVideoId(evs[i].url)
  {
    DeliverFirstDecision(evs);
    var i: nat :| FirstDecisive(evs, i) && Resolve(evs) == Decision(evs[i]);
    assert evs[i].Request?;
  }

  /** A resolved id never contains `&`, whichever event produced it. */
  lemma DecisionsCarryCleanIds(evs: seq<WebEvent>)
    ensures Resolve(evs).Some? && Resolve(evs).value.VideoId? ==> '&' !in Resolve(evs).value.id
  {
    DeliverFirstDecision(evs);
  }

  // ---------------------------------------------------------------------------
  // saveFileToStorage
  // ---------------------------------------------------------------------------

  /** `Build.VERSION_CODES.R`. */
  const SDK_R := 30

  /** How a job, or a step of it, ended. */
  datatype Completion = Completed | Threw(cause: Thrown)

  /**
    The completion handler: the inserted entry is deleted only when the job
    ended with a `CancellationException` (the timeout subclass included), the
    insert returned a URI, and the platform is Android R or later.
   */
  function DeletesOnCompletion<U>(jobEnd: Completion, fileUri: Option<U>, sdk: int): (deleted: bool)
    ensures deleted ==> fileUri.Some? && jobEnd.Threw? && jobEnd.cause.IsCancellation()
    ensures jobEnd == Completed ==> !deleted
    ensures fileUri.Some? && jobEnd.Threw? && jobEnd.cause.IsCancellation() && sdk >= SDK_R ==> deleted
    ensures sdk < SDK_R ==> !deleted
  {
    match jobEnd
    case Completed => false
    case Threw(cause) => cause.IsCancellation() && fileUri.Some? && sdk >= SDK_R
  }

  /**
    The result of `saveFileToStorage`, the media-store entry it created (the
    one the completion handler watches), and whether any bytes were requested.
   */
  datatype SaveRun<U> = SaveRun(result: Result<Option<U>, Thrown>, entry: Option<U>, transferAttempted: bool)

  /**
    `saveFileToStorage`: `insert` is what `resolver.insert` returned or threw,
    `open` whether `openOutputStream` gave a stream (or what it threw), and
    `transfer` how the download into that stream ended. A throwing insert
    propagates before any handler exists; with no URI nothing more happens and
    `null` is returned; a throwing open or transfer propagates with the entry
    still in place; otherwise the URI is returned.
   */
  function SaveFileToStorage<U>(insert: Result<Option<U>, Thrown>, open: Result<bool, Thrown>, transfer: Completion): (run: SaveRun<U>)
    ensures run.entry.Some? <==> insert.Success? && insert.value.Some?
    ensures run.entry.Some? ==> run.entry == insert.value
    ensures run.transferAttempted <==> run.entry.Some? && open == Success(true)
    ensures insert.Failure? ==> run.result == Failure(insert.error)
    ensures insert == Success(None) ==> run.result == Success(None)
    ensures run.result.Success? ==> run.result.value == run.entry
    ensures run.result.Failure? <==>
      insert.Failure? || (run.entry.Some? && open.Failure?) || (run.transferAttempted && transfer.Threw?)
    ensures run.entry.Some? && open.Failure? ==> run.result == Failure(open.error)
    ensures run.transferAttempted && transfer.Threw? ==> run.result == Failure(transfer.cause)
  {
    match insert
    case Failure(e) => SaveRun(Failure(e), None, false)
    case Success(None) => SaveRun(Success(None), None, false)
    case Success(fileUri) =>
      match open
      case Failure(e) => SaveRun(Failure(e), fileUri, false)
      case Success(false) => SaveRun(Success(fileUri), fileUri, false)
      case Success(true) =>
        match transfer
        case Completed => SaveRun(Success(fileUri), fileUri, true)
        case Threw(cause) => SaveRun(Failure(cause), fileUri, true)
  }

  /**
    A transfer cut short by cancellation on Android R or later propagates the
    cancellation and leaves no entry behind; without a URI there is nothing to
    delete.
   */
  lemma CancelledSaveLeavesNoFile<U>(fileUri: Option<U>, cause: Thrown, sdk: int)
    requires cause.IsCancellation() && sdk >= SDK_R
    ensures var run := SaveFileToStorage(Success(fileUri), Success(true), Threw(cause));
      fileUri.Some? ==> run.result == Failure(cause) && DeletesOnCompletion(Threw(cause), run.entry, sdk)
    ensures var run := SaveFileToStorage(Success(fileUri), Success(true), Threw(cause));
      fileUri.None? ==> !DeletesOnCompletion(Threw(cause), run.entry, sdk)
  {
  }

  /**
    When the job ends with the exception `saveFileToStorage` threw and that is
    not a cancellation (a failed `openOutputStream`, an I/O error during the
    copy), an inserted entry is kept, whatever the platform.
   */
  lemma FailedSaveKeepsEntry<U>(insert: Result<Option<U>, Thrown>, open: Result<bool, Thrown>, transfer: Completion, sdk: int)
    requires SaveFileToStorage(insert, open, transfer).result.Failure?
    requires !SaveFileToStorage(insert, open, transfer).result.error.IsCancellation()
    ensures var run := SaveFileToStorage(insert, open, transfer);
      !DeletesOnCompletion(Threw(run.result.error), run.entry, sdk)
      && (insert.Success? && insert.value.Some? ==> run.entry == insert.value)
  {
  }
}
