/**
  The decisions `MainActivity.kt` makes around one resolution attempt
  (`fetchVideo`): which URL of the pasted text is resolved, the direct-link
  template, the HEAD check, and the three-way dispatch of failures into
  silence, a final report, or a report followed by a fresh attempt on the same
  input. Also the default file name offered by `selectVideoName` and the
  `.mp4` name `saveVideo` stores under.
 */
module MainActivity {
  import opened Wrappers
  import opened Kotlin
  import UrlExtract
  import Tiktok

  const PLAY_URL_PREFIX := "https://www.douyin.com/aweme/v1/play/?video_id="

  const MSG_NO_LINK := "请输入正确的分享链接"
  const MSG_UNPLAYABLE := "不支持广告或无法播放"
  const MSG_RESOLVED := "解析成功!"
  const DEFAULT_VIDEO_NAME := "抖音下载"

  /** The permanent play URL of a video id, as `fetchVideo` and `showVideoInfo` build it. */
  function DirectLink(id: string): (link: string)
    ensures StartsWith(link, PLAY_URL_PREFIX) && link[|PLAY_URL_PREFIX|..] == id
  {
    PLAY_URL_PREFIX + id
  }

  /** Before the key, the template never has a `v` followed by an `i`. */
  lemma NoKeyStartBefore38()
    ensures |PLAY_URL_PREFIX| == 47
    ensures forall j :: 0 <= j < 38 ==> PLAY_URL_PREFIX[j] != 'v' || PLAY_URL_PREFIX[j + 1] != 'i'
  {
    var host, path := "https://www.douyin.com/aweme/", "v1/play/?";
    assert PLAY_URL_PREFIX == host + path + Tiktok.VIDEO_ID_KEY;
    forall j | 0 <= j < 38
      ensures PLAY_URL_PREFIX[j] != 'v' || PLAY_URL_PREFIX[j + 1] != 'i'
    {
      if j < 29 {
        assert PLAY_URL_PREFIX[j] == host[j];
      } else if j > 29 {
        assert PLAY_URL_PREFIX[j] == path[j - 29];
      }
    }
  }

  /** The first `video_id=` of a direct link is the one the template ends with. */
  lemma PrefixKeyPosition()
    ensures IndexOf(PLAY_URL_PREFIX, Tiktok.VIDEO_ID_KEY) == Some(38)
    ensures |PLAY_URL_PREFIX| == 38 + |Tiktok.VIDEO_ID_KEY|
  {
    var key := Tiktok.VIDEO_ID_KEY;
    NoKeyStartBefore38();
    assert PLAY_URL_PREFIX[38..] == key;
    assert OccursAt(PLAY_URL_PREFIX, key, 38);
    forall j: nat | j < 38
      ensures !OccursAt(PLAY_URL_PREFIX, key, j)
    {
      assert key[0] == 'v' && key[1] == 'i';
    }
  }

  /** An occurrence that lies in `a` is still the first one after something is appended. */
  lemma IndexOfExtends(a: string, b: string, pat: string, i: nat)
    requires IndexOf(a, pat) == Some(i)
    ensures IndexOf(a + b, pat) == Some(i)
  {
    assert OccursAt(a, pat, i);
    assert (a + b)[i..i + |pat|] == a[i..i + |pat|];
    assert OccursAt(a + b, pat, i);
    forall j: nat | j < i
      ensures !OccursAt(a + b, pat, j)
    {
      assert (a + b)[j..j + |pat|] == a[j..j + |pat|];
      assert !OccursAt(a, pat, j);
    }
    var v := IndexOf(a + b, pat).value;
    assert v <= i;
  }

  /**
    The interceptor's id extraction applied to a direct link gives back the id
    up to its first `&`, so an id without `&` survives the round trip.
   */
  lemma DirectLinkRoundTrip(id: string)
    ensures Tiktok.ExtractVideoId(DirectLink(id)) == SubstringBefore(id, "&")
    ensures '&' !in id ==> Tiktok.ExtractVideoId(DirectLink(id)) == id
  {
    var link := DirectLink(id);
    PrefixKeyPosition();
    IndexOfExtends(PLAY_URL_PREFIX, id, Tiktok.VIDEO_ID_KEY, 38);
    var after := SubstringAfter(link, Tiktok.VIDEO_ID_KEY);
    assert link == link[..38] + Tiktok.VIDEO_ID_KEY + after;
    assert after == link[|PLAY_URL_PREFIX|..];
    ContainsChar(id, '&');
    assert "&" == ['&'];
  }

  /** The reply to the HEAD request on the direct link. */
  datatype HeadResponse = HeadResponse(status: int, contentLength: Option<Long>)

  /** `HttpStatusCode.isSuccess()`. */
  predicate IsSuccess(status: int) {
    200 <= status <= 299
  }

  /** What one `fetchVideo` call ends in. */
  datatype Reaction =
    | Silent                                        // cancelled: no message, no retry
    | Report(message: string)                       // one toast, nothing else
    | ReportAndRetry(message: string, input: string) // a toast, then `fetchVideo(input)`
    | ShowInfo(id: string, size: Long)              // "解析成功!" and `showVideoInfo(id, size)`

  /** The toast a reaction shows: none when silent, "解析成功!" before the info. */
  function Toast(r: Reaction): (t: Option<string>)
    ensures t.None? <==> r.Silent?
    ensures r.ShowInfo? ==> t == Some(MSG_RESOLVED)
    ensures r.Report? || r.ReportAndRetry? ==> t == Some(r.message)
  {
    match r
    case Silent => None
    case Report(m) => Some(m)
    case ReportAndRetry(m, _) => Some(m)
    case ShowInfo(_, _) => Some(MSG_RESOLVED)
  }

  /** The rejections `fetchVideo` reports without retrying. */
  predicate IsFinalMessage(message: Option<string>) {
    message == Some(Tiktok.MSG_IMAGE_TEXT) || message == Some(Tiktok.MSG_SEGMENTED) || message == Some(Tiktok.MSG_REMOVED)
  }

  /** String interpolation of a nullable message. */
  function MessageText(message: Option<string>): string {
    match message
    case None => "null"
    case Some(m) => m
  }

  /**
    The `catch` of `fetchVideo`: a cancellation that is not a timeout is
    silent; the three unsupported-content messages are reported once; every
    other failure, timeouts and captchas included, is reported and the whole
    attempt restarts from the same raw input.
   */
  function Dispatch(e: Thrown, input: string): (r: Reaction)
    ensures r.Silent? <==> e.kind == Cancellation
    ensures r.Report? <==> e.kind != Cancellation && IsFinalMessage(e.message)
    ensures r.ReportAndRetry? <==> e.kind != Cancellation && !IsFinalMessage(e.message)
    ensures r.Report? ==> r.message == "解析失败(" + e.message.value + ")"
    ensures r.ReportAndRetry? ==> r.input == input && r.message == "解析失败(" + MessageText(e.message) + "),重试中"
  {
    if e.kind == Cancellation then Silent
    else if IsFinalMessage(e.message) then Report("解析失败(" + MessageText(e.message) + ")")
    else ReportAndRetry("解析失败(" + MessageText(e.message) + "),重试中", input)
  }

  /**
    `fetchVideo(input)`: `resolve` stands for `getVideoId` and `head` for the
    HEAD request. Only the last URL found in the input is resolved; text with
    no URL is reported at once and nothing is resolved.
   */
  function FetchVideo(input: string, resolve: string -> Result<string, Thrown>, head: string -> Result<HeadResponse, Thrown>): (r: Reaction)
    ensures UrlExtract.ExtractUrls(input) == [] ==> r == Report(MSG_NO_LINK)
    ensures r.ShowInfo? ==>
      var urls := UrlExtract.ExtractUrls(input);
      |urls| > 0 && resolve(urls[|urls| - 1]) == Success(r.id)
        && head(DirectLink(r.id)).Success? && IsSuccess(head(DirectLink(r.id)).value.status)
        && r.size == match head(DirectLink(r.id)).value.contentLength { case Some(n) => n case None => 0 }
    ensures r.ReportAndRetry? ==> r.input == input
    ensures r.Silent? ==>
      var urls := UrlExtract.ExtractUrls(input);
      |urls| > 0 && var res := resolve(urls[|urls| - 1]);
        (res.Failure? && res.error.kind == Cancellation)
        || (res.Success? && head(DirectLink(res.value)).Failure? && head(DirectLink(res.value)).error.kind == Cancellation)
    ensures UrlExtract.LastUrl(input).Some? && resolve(UrlExtract.LastUrl(input).value).Failure? ==>
      r == Dispatch(resolve(UrlExtract.LastUrl(input).value).error, input)
    ensures UrlExtract.LastUrl(input).Some? && resolve(UrlExtract.LastUrl(input).value).Success? ==>
      var id := resolve(UrlExtract.LastUrl(input).value).value;
      (head(DirectLink(id)).Failure? ==> r == Dispatch(head(DirectLink(id)).error, input))
      && (head(DirectLink(id)).Success? && !IsSuccess(head(DirectLink(id)).value.status) ==> r == Report(MSG_UNPLAYABLE))
      && (head(DirectLink(id)).Success? && IsSuccess(head(DirectLink(id)).value.status) ==> r.ShowInfo? && r.id == id)
  {
    match UrlExtract.LastUrl(input)
    case None => Report(MSG_NO_LINK)
    case Some(url) =>
      match resolve(url)
      case Failure(e) => Dispatch(e, input)
      case Success(id) =>
        match head(DirectLink(id))
        case Failure(e) => Dispatch(e, input)
        case Success(response) =>
          if !IsSuccess(response.status) then Report(MSG_UNPLAYABLE)
          else ShowInfo(id, match response.contentLength { case Some(n) => n case None => 0 })
  }

  /** A page rejected as a note, slides, or removed content is reported once and not retried. */
  lemma UnsupportedContentIsFinal(input: string, evs: seq<Tiktok.WebEvent>, guard: Tiktok.Guard,
                                  head: string -> Result<HeadResponse, Thrown>, message: string)
    requires UrlExtract.ExtractUrls(input) != []
    requires Tiktok.Resolve(evs) == Some(Tiktok.Rejected(message))
    requires message in {Tiktok.MSG_IMAGE_TEXT, Tiktok.MSG_SEGMENTED, Tiktok.MSG_REMOVED}
    ensures FetchVideo(input, _ => Tiktok.GetVideoId(evs, guard), head) == Report("解析失败(" + message + ")")
  {
  }

  /** A captcha, or a wait that hits the ten-second guard, is reported and retried on the same input. */
  lemma CaptchaOrTimeoutRetries(input: string, evs: seq<Tiktok.WebEvent>, head: string -> Result<HeadResponse, Thrown>)
    requires UrlExtract.ExtractUrls(input) != []
    requires Tiktok.Resolve(evs) == Some(Tiktok.Rejected(Tiktok.MSG_CAPTCHA)) || Tiktok.Resolve(evs).None?
    ensures var r := FetchVideo(input, _ => Tiktok.GetVideoId(evs, Tiktok.Deadline), head);
      r.ReportAndRetry? && r.input == input
  {
    var res := Tiktok.GetVideoId(evs, Tiktok.Deadline);
    assert res.Failure? && res.error.kind != Cancellation;
    assert !IsFinalMessage(res.error.message);
  }

  /** Leaving the screen before any decision ends the attempt without a word. */
  lemma CallerCancelIsSilent(input: string, evs: seq<Tiktok.WebEvent>, head: string -> Result<HeadResponse, Thrown>)
    requires UrlExtract.ExtractUrls(input) != []
    requires Tiktok.Resolve(evs).None?
    ensures FetchVideo(input, _ => Tiktok.GetVideoId(evs, Tiktok.CallerCancelled), head) == Silent
  {
  }

  /**
    The file name `selectVideoName` proposes: the text between the first `#`
    of the input and the next `#` (or the end), or "抖音下载" when the input
    has no `#`.
   */
  function DefaultVideoName(input: string): (name: string)
    ensures !Contains(input, "#") ==> name == DEFAULT_VIDEO_NAME
    ensures Contains(input, "#") ==>
      '#' !in name && exists rest :: input == input[..IndexOf(input, "#").value] + "#" + name + rest && (rest == [] || rest[0] == '#')
  {
    if Contains(input, "#") then
      assert "#" == ['#'];
      AfterThenBefore(input, "#", '#');
      SubstringBefore(SubstringAfter(input, "#"), "#")
    else
      DEFAULT_VIDEO_NAME
  }

  /** The name `saveVideo` stores the download under. */
  function VideoFileName(name: string): (fileName: string)
    ensures |fileName| == |name| + 4 && fileName[..|name|] == name && fileName[|name|..] == ".mp4"
  {
    name + ".mp4"
  }
}
