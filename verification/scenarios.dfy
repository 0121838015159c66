/*
  What `fetchVideo` does on one concrete share text, stated as lemmas: the
  extractor picks out the share link, the WebView events the resolver sees
  decide the outcome, and the dispatcher turns it into what the user is shown.
*/
module Scenarios {
  import opened Wrappers
  import opened Kotlin
  import opened UrlExtract
  import opened Tiktok
  import opened MainActivity

  const SHARE_HOST := "v.douyin.com"
  const SHARE_URL := "https://" + SHARE_HOST + "/abc123/"
  /** A share text as the app receives it: prose around the short link. */
  const SHARE_TEXT := "看看这个 " + SHARE_URL + " 真好笑"

  // ---------------------------------------------------------------------------
  // Extraction
  // ---------------------------------------------------------------------------

  lemma ShareHostIsDotted()
    ensures IsDottedHost(SHARE_HOST)
  {
    var h := SHARE_HOST;
    assert h[1] == '.';
    forall i | 0 <= i < |h|
      ensures IsLabelChar(h[i]) || h[i] == '.'
    {
    }
    assert NoDoubleDot(h, 0, |h|);
  }

  lemma ShareUrlIsShaped()
    ensures UrlShaped(SHARE_URL)
  {
    var u := SHARE_URL;
    ShareHostIsDotted();
    assert u[..8] == "https://";
    assert u[8..20] == SHARE_HOST;
    assert u[20..] == "/abc123/";
    assert IsTail(u[20..]);
    assert UrlShapedAt(u, 8, 20);
  }

  /** A string of the grammar followed by a character outside the tail class is matched whole. */
  lemma MatchBetween(pre: string, u: string, post: string)
    requires 8 <= |u| && UrlShaped(u) && 0 < |post| && !IsTailChar(post[0])
    ensures var s := pre + u + post;
      MatchAt(s, |pre|).Some? && MatchAt(s, |pre|).value == |pre| + |u|
  {
    var s := pre + u + post;
    assert s[|pre|..|pre| + |u|] == u;
    assert s[|pre| + |u|] == post[0];
    MatchEndsAtStop(s, |pre|, |pre| + |u|);
  }

  /** The link ends at the space after it. */
  lemma ShareUrlMatch()
    ensures MatchAt(SHARE_TEXT, 5).Some? && MatchAt(SHARE_TEXT, 5).value == 33
  {
    var pre, post := "看看这个 ", " 真好笑";
    assert |pre| == 5 && |SHARE_URL| == 28;
    assert !IsTailChar(post[0]);
    ShareUrlIsShaped();
    MatchBetween(pre, SHARE_URL, post);
  }

  /** The Chinese prose and the space around the link start no URL. */
  lemma ShareTextOtherPositions()
    ensures forall q: nat :: q < 5 || 33 <= q < 37 ==> MatchAt(SHARE_TEXT, q).None?
  {
    var s := SHARE_TEXT;
    forall q: nat | q < 5 || 33 <= q < 37
      ensures MatchAt(s, q).None?
    {
      assert s[q] != 'h';
      NoMatchWithoutH(s, q);
    }
  }

  /** The share text yields the short link and nothing else. */
  lemma ShareTextExtraction()
    ensures ExtractUrls(SHARE_TEXT) == [SHARE_URL]
    ensures LastUrl(SHARE_TEXT) == Some(SHARE_URL)
  {
    var s := SHARE_TEXT;
    assert |s| == 37;
    ShareTextOtherPositions();
    ShareUrlMatch();
    SingleUrl(s, 5, 33);
    assert s[5..33] == SHARE_URL;
  }

  // ---------------------------------------------------------------------------
  // What the WebView reports while it loads the link
  // ---------------------------------------------------------------------------

  const RESOLVED_ID := "999"

  /** The short link has no removed-content marker: it has no `-`. */
  lemma ShareUrlNotRemoved()
    ensures !Contains(SHARE_URL, REMOVED_MARKER)
  {
    assert '-' !in SHARE_URL;
    assert REMOVED_MARKER[5] == '-';
    MissingCharNotContained(SHARE_URL, REMOVED_MARKER, '-');
  }

  /** The short link carries no id: it has no `_`. */
  lemma ShareUrlHasNoId()
    ensures !Contains(SHARE_URL, VIDEO_ID_KEY)
  {
    assert '_' !in SHARE_URL;
    assert VIDEO_ID_KEY[5] == '_';
    MissingCharNotContained(SHARE_URL, VIDEO_ID_KEY, '_');
  }

  /** The short link has no captcha marker: no `/` in it is followed by `c`. */
  lemma ShareUrlNoCaptcha()
    ensures !Contains(SHARE_URL, CAPTCHA_MARKER)
  {
    assert NoPair(SHARE_URL, '/', 'c');
    MissingPairNotContained(SHARE_URL, CAPTCHA_MARKER);
  }

  /**
    The short link decides nothing, whichever interceptor sees it: it is
    neither a note nor slides (it has no `e`), and it carries none of the
    request markers.
   */
  lemma ShareUrlUndecided()
    ensures Decision(Request(SHARE_URL)).None?
    ensures Decision(Navigation(SHARE_URL)).None?
  {
    assert 'e' !in SHARE_URL;
    assert NOTE_MARKER[4] == 'e' && SLIDES_MARKER[4] == 'e';
    MissingCharNotContained(SHARE_URL, NOTE_MARKER, 'e');
    MissingCharNotContained(SHARE_URL, SLIDES_MARKER, 'e');
    ShareUrlNotRemoved();
    ShareUrlHasNoId();
    ShareUrlNoCaptcha();
  }

  lemma PlayRequestHasNoSlashC()
    ensures NoPair(DirectLink(RESOLVED_ID), '/', 'c')
  {
    var host, path := "https://www.douyin.com/aweme/", "v1/play/?";
    assert DirectLink(RESOLVED_ID) == host + path + VIDEO_ID_KEY + RESOLVED_ID;
    assert NoPair(host, '/', 'c');
    assert NoPair(path, '/', 'c');
    assert NoPair(VIDEO_ID_KEY, '/', 'c');
    assert NoPair(RESOLVED_ID, '/', 'c');
    NoPairConcat(host, path, '/', 'c');
    NoPairConcat(host + path, VIDEO_ID_KEY, '/', 'c');
    NoPairConcat(host + path + VIDEO_ID_KEY, RESOLVED_ID, '/', 'c');
  }

  lemma PlayRequestHasNoDash()
    ensures '-' !in DirectLink(RESOLVED_ID)
  {
    var host, path := "https://www.douyin.com/aweme/", "v1/play/?";
    assert DirectLink(RESOLVED_ID) == host + path + VIDEO_ID_KEY + RESOLVED_ID;
    assert '-' !in host && '-' !in path && '-' !in VIDEO_ID_KEY && '-' !in RESOLVED_ID;
  }

  /** The play request has no captcha marker: no `/` in it is followed by `c`. */
  lemma PlayRequestNoCaptcha()
    ensures !Contains(DirectLink(RESOLVED_ID), CAPTCHA_MARKER)
  {
    PlayRequestHasNoSlashC();
    assert CAPTCHA_MARKER[0] == '/' && CAPTCHA_MARKER[1] == 'c';
    MissingPairNotContained(DirectLink(RESOLVED_ID), CAPTCHA_MARKER);
  }

  /** The play request has no removed-content marker: it has no `-`. */
  lemma PlayRequestNotRemoved()
    ensures !Contains(DirectLink(RESOLVED_ID), REMOVED_MARKER)
  {
    PlayRequestHasNoDash();
    assert REMOVED_MARKER[5] == '-';
    MissingCharNotContained(DirectLink(RESOLVED_ID), REMOVED_MARKER, '-');
  }

  /** The play request decides the id it carries. */
  lemma PlayRequestDecides()
    ensures Decision(Request(DirectLink(RESOLVED_ID))) == Some(VideoId(RESOLVED_ID))
  {
    PlayRequestNoCaptcha();
    PlayRequestNotRemoved();
    PrefixKeyPosition();
    IndexOfExtends(PLAY_URL_PREFIX, RESOLVED_ID, VIDEO_ID_KEY, 38);
    DirectLinkRoundTrip(RESOLVED_ID);
    assert '&' !in RESOLVED_ID;
  }

  const SHARE_EVENTS := [Request(SHARE_URL), Request(DirectLink(RESOLVED_ID))]

  lemma ShareEventsResolve()
    ensures Resolve(SHARE_EVENTS) == Some(VideoId(RESOLVED_ID))
  {
    var req := Request(DirectLink(RESOLVED_ID));
    ShareUrlUndecided();
    PlayRequestDecides();
    assert SHARE_EVENTS[1..] == [req];
    assert Deliver(None, [req]) == Deliver(Decision(req), []);
  }

  const NOTE_URL := "https://www.douyin.com/" + NOTE_MARKER + "7300000000/"

  lemma NoteEventsResolve()
    ensures Resolve([Request(SHARE_URL), Navigation(NOTE_URL)]) == Some(Rejected(MSG_IMAGE_TEXT))
  {
    var nav := Navigation(NOTE_URL);
    assert OccursAt(NOTE_URL, NOTE_MARKER, 23);
    ShareUrlUndecided();
    assert [Request(SHARE_URL), nav][1..] == [nav];
    assert Deliver(None, [nav]) == Deliver(Decision(nav), []);
  }

  const CAPTCHA_URL := "https://verify.douyin.com" + CAPTCHA_MARKER + "verify"

  lemma CaptchaEventsResolve()
    ensures Resolve([Request(SHARE_URL), Request(CAPTCHA_URL)]) == Some(Rejected(MSG_CAPTCHA))
  {
    var req := Request(CAPTCHA_URL);
    assert OccursAt(CAPTCHA_URL, CAPTCHA_MARKER, 25);
    ShareUrlUndecided();
    assert [Request(SHARE_URL), req][1..] == [req];
    assert Deliver(None, [req]) == Deliver(Decision(req), []);
  }

  // ---------------------------------------------------------------------------
  // fetchVideo on the share text
  // ---------------------------------------------------------------------------

  /** `getVideoId` on the share link, given the events the WebView reports for it. */
  function ResolverSeeing(evs: seq<WebEvent>, guard: Guard): string -> Result<string, Thrown> {
    url => if url == SHARE_URL then GetVideoId(evs, guard) else Failure(Thrown(Ordinary, None))
  }

  /**
    The share text resolves to id 999: a successful HEAD reply shows the video
    info with the reported size (0 when none is reported); any other status is
    reported as unplayable.
   */
  lemma ShareTextShowsInfo(guard: Guard, size: Long)
    ensures FetchVideo(SHARE_TEXT, ResolverSeeing(SHARE_EVENTS, guard), _ => Success(HeadResponse(200, Some(size))))
            == ShowInfo(RESOLVED_ID, size)
    ensures FetchVideo(SHARE_TEXT, ResolverSeeing(SHARE_EVENTS, guard), _ => Success(HeadResponse(200, None)))
            == ShowInfo(RESOLVED_ID, 0)
    ensures FetchVideo(SHARE_TEXT, ResolverSeeing(SHARE_EVENTS, guard), _ => Success(HeadResponse(403, Some(size))))
            == Report(MSG_UNPLAYABLE)
  {
    ShareTextExtraction();
    ShareEventsResolve();
  }

  /** The share link redirects to a note: reported once, not retried. */
  lemma NoteIsReported(guard: Guard, head: string -> Result<HeadResponse, Thrown>)
    ensures FetchVideo(SHARE_TEXT, ResolverSeeing([Request(SHARE_URL), Navigation(NOTE_URL)], guard), head)
            == Report("解析失败(" + MSG_IMAGE_TEXT + ")")
  {
    NoteEventsResolve();
    ShareTextExtraction();
    var res := GetVideoId([Request(SHARE_URL), Navigation(NOTE_URL)], guard);
    assert res == Failure(Thrown(Ordinary, Some(MSG_IMAGE_TEXT)));
    assert IsFinalMessage(res.error.message);
  }

  /** The page asks for a captcha: reported, then the same share text is tried again. */
  lemma CaptchaIsRetried(guard: Guard, head: string -> Result<HeadResponse, Thrown>)
    ensures FetchVideo(SHARE_TEXT, ResolverSeeing([Request(SHARE_URL), Request(CAPTCHA_URL)], guard), head)
            == ReportAndRetry("解析失败(" + MSG_CAPTCHA + "),重试中", SHARE_TEXT)
  {
    CaptchaEventsResolve();
    ShareTextExtraction();
  }

  lemma UndecidedEventsResolve()
    ensures Resolve([Request(SHARE_URL)]).None?
  {
    var nav := Request(SHARE_URL);
    ShareUrlUndecided();
    assert [nav][1..] == [];
    assert Deliver(None, [nav]) == Deliver(Resume(None, Decision(nav)), []);
  }

  /** Nothing decisive within ten seconds: the timeout is reported and the share text tried again. */
  lemma TimeoutIsRetried(head: string -> Result<HeadResponse, Thrown>)
    ensures FetchVideo(SHARE_TEXT, ResolverSeeing([Request(SHARE_URL)], Deadline), head)
            == ReportAndRetry("解析失败(" + TIMEOUT_MESSAGE + "),重试中", SHARE_TEXT)
  {
    UndecidedEventsResolve();
    ShareTextExtraction();
  }

  /** Leaving the screen before anything is decided ends the attempt without a word. */
  lemma LeavingIsSilent(head: string -> Result<HeadResponse, Thrown>)
    ensures FetchVideo(SHARE_TEXT, ResolverSeeing([Request(SHARE_URL)], CallerCancelled), head) == Silent
  {
    UndecidedEventsResolve();
    ShareTextExtraction();
  }
}
