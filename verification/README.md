# TikDown resolve-and-download core, modelled in Dafny

TikDown is an Android app. It takes the share text of a Douyin video (prose
with a short link somewhere in it) and works out the video's permanent play
URL. It then checks that the URL is playable and downloads the file into the
device's Downloads collection. This project models the decisions behind that
pipeline as pure Dafny functions, and proves what they promise:

- **URL extraction** (`UrlExtract`, `extractUrls`). The regular expression is
  rebuilt as a hand-written scanner. The scanner is proved to find the
  leftmost-longest matches of a declarative grammar for the pattern.
- **WebView interceptors** (`Tiktok`). The rules `shouldOverrideUrlLoading`
  and `shouldInterceptRequest` apply to each URL the hidden page visits. The
  one-shot continuation turns those events into one resolution. There is also
  the ten-second guard, and the rule for when `saveFileToStorage` deletes a
  half-written file.
- **`fetchVideo`** (`MainActivity`). Only the last URL in the input is
  resolved. The direct-link template is proved to round-trip with the
  interceptor's id extraction. Every failure goes to exactly one of: silence, a
  final report, or a report plus a retry on the same input. The default file
  name and the `.mp4` name are covered too.
- **Download progress** (`Progress`). This is the three-field record with its
  overwrite and increment updates, and `progress` is an exact ratio.
- **Utilities** from `CommonUtil.kt`:
  - cyclic indexing `at` (`CommonUtil`);
  - `truncate` (`CommonUtil`);
  - the hex codec (`Hex`);
  - the recompute-on-key-change property delegate (`CachedDelegate`);
  - the order-insensitive list comparison `elementEquals` (`ElementEquals`).

`Kotlin` holds the parts of the Kotlin and JVM libraries the code relies on:
- `indexOf`, `contains`, `substringAfter` and `substringBefore`, which return
  the whole string when the delimiter is missing;
- the `Int` and `Long` ranges;
- `Long` wrap-around;
- the JVM `%`, which truncates toward zero;
- the exception classes the app tells apart.

`Wrappers` holds `Option` and `Result`.

`Scenarios` states, as lemmas, what the pipeline does on one concrete share
text: a successful resolution, a note, a captcha, a timeout and the user
leaving.

Some calls the code makes are parameters of the model rather than parts of it:
- Network and storage calls are parameters with their possible outcomes:
  - `getVideoId`'s result is a function argument of `FetchVideo`;
  - the HEAD response is a function argument too;
  - what `resolver.insert` returns is a result that carries either the URI
    (or `null`) or the exception it threw;
  - what `openOutputStream` gives is a result too: whether a stream opened,
    or the exception it threw;
  - what the initializer of a `CachedDelegate` returns or throws is a result;
  - the transfer is a `Completion`.
- The WebView's behaviour is the sequence of URLs it reports.
- The coroutine machinery is reduced to how a wait ends: the events seen
  before the guard fired, and which guard fired.

Source paths below are relative to the repository root.

## Model

| member | source | states |
|---|---|---|
| UrlExtract.MatchAtIsLongest | app/src/main/java/com/donut/tikdown/util/CommonUtil.kt:58 | The scanner's match at a position is in the pattern's language, and no longer prefix is. When the scanner finds nothing, no prefix from that position is in the language. |
| UrlExtract.HostEnd | app/src/main/java/com/donut/tikdown/util/CommonUtil.kt:58 | `[\w-]+(\.[\w-]+)+`: a found host is a dotted host. When none is found, no prefix is a dotted host. |
| UrlExtract.BackOff | app/src/main/java/com/donut/tikdown/util/CommonUtil.kt:58 | The optional tail ends just after its last tail-end character. Nothing between that point and the end of the maximal tail run can end the tail. |
| UrlExtract.SchemeLength | app/src/main/java/com/donut/tikdown/util/CommonUtil.kt:58 | `https?://` has length 7 or 8 when present, and 0 exactly when the text has neither prefix. |
| UrlExtract.FindAll | app/src/main/java/com/donut/tikdown/util/CommonUtil.kt:61 | `findAll`: the spans are in bounds, each is the match at its start, they are ordered without overlap, and every skipped position has no match. |
| UrlExtract.ExtractUrls | app/src/main/java/com/donut/tikdown/util/CommonUtil.kt:55-64 | The result is the list of substrings at the spans `findAll` reports. |
| UrlExtract.ExtractedUrlIsLongestMatch | app/src/main/java/com/donut/tikdown/util/CommonUtil.kt:58-61 | Each result is a substring in the pattern's language and the longest one starting there. Results come left to right and do not overlap. |
| UrlExtract.SkippedPositionsHoldNoUrl | app/src/main/java/com/donut/tikdown/util/CommonUtil.kt:61 | A position outside every result starts no string of the language. |
| UrlExtract.ExtractedUrlHasSchemeAndDottedHost | app/src/main/java/com/donut/tikdown/util/CommonUtil.kt:58 | Every result starts with `http://` or `https://`, followed by a host with at least two dot-separated labels. |
| UrlExtract.ExtractedUrlEndsCleanly | app/src/main/java/com/donut/tikdown/util/CommonUtil.kt:58 | No result ends in `.`, `,` or `:`. |
| UrlExtract.ShapedEndsCleanly | app/src/main/java/com/donut/tikdown/util/CommonUtil.kt:58 | No string of the pattern's language ends in `.`, `,` or `:`. |
| UrlExtract.ExtractUrlsEmptyIff | app/src/main/java/com/donut/tikdown/util/CommonUtil.kt:58-61 | The result is empty exactly when no substring of the text is in the language. |
| UrlExtract.NoSchemeNoUrls | app/src/main/java/com/donut/tikdown/util/CommonUtil.kt:58-61 | Text with no `http://` or `https://` anywhere yields no URL. |
| UrlExtract.LastUrl | app/src/main/java/com/donut/tikdown/MainActivity.kt:296 | `lastOrNull` is null exactly when nothing was extracted; otherwise it is the last extracted URL. |
| UrlExtract.MatchEndsAtStop | app/src/main/java/com/donut/tikdown/util/CommonUtil.kt:58 | A string of the language followed by a character outside the tail class is exactly the match at its start. |
| UrlExtract.OnlySpan | app/src/main/java/com/donut/tikdown/util/CommonUtil.kt:61 | When a single position has a match, `findAll` reports exactly that span. |
| UrlExtract.SingleUrl | app/src/main/java/com/donut/tikdown/util/CommonUtil.kt:55-64 | Text whose only match runs from `a` to `b` yields exactly the one URL `s[a..b]`. |
| Kotlin.IndexOf | app/src/main/java/com/donut/tikdown/util/Tiktok.kt:168 | There is a result exactly when the pattern occurs. The result is the first occurrence. |
| Kotlin.ContainsChar | app/src/main/java/com/donut/tikdown/util/Tiktok.kt:168 | Containing a one-character string is the same as containing that character. |
| Kotlin.SubstringAfter | app/src/main/java/com/donut/tikdown/util/Tiktok.kt:168 | The text splits as before-first-delimiter + delimiter + result. A missing delimiter gives the whole string. |
| Kotlin.SubstringBefore | app/src/main/java/com/donut/tikdown/util/Tiktok.kt:168 | The result is a prefix that ends at the first delimiter and holds no delimiter. A missing delimiter gives the whole string. |
| Kotlin.AfterThenBefore | app/src/main/java/com/donut/tikdown/util/Tiktok.kt:168 | `substringAfter(d).substringBefore(c)` is exactly the text between the first `d` and the next `c` or the end. The result has no `c`. |
| Kotlin.TruncRem | app/src/main/java/com/donut/tikdown/util/CommonUtil.kt:194 | The JVM remainder is smaller in size than the divisor and takes the dividend's sign. Shifted up when negative, it is the floor residue. |
| Kotlin.WrapLong | app/src/main/java/com/donut/tikdown/util/Progress.kt:55 | `Long` addition is the mathematical sum when that fits, and otherwise is congruent to it modulo 2^64. |
| CommonUtil.At | app/src/main/java/com/donut/tikdown/util/CommonUtil.kt:193-199 | `at` fails only on an empty list. Otherwise it returns the element at the floor residue `index mod size`. |
| CommonUtil.AtInt | app/src/main/java/com/donut/tikdown/util/CommonUtil.kt:201-203 | The `Int` overload returns the element at the floor residue too. |
| CommonUtil.AtInRange | app/src/main/java/com/donut/tikdown/util/CommonUtil.kt:193-199 | An in-range index gives plain indexing. |
| CommonUtil.AtNegativeCountsFromEnd | app/src/main/java/com/donut/tikdown/util/CommonUtil.kt:193-199 | `-k` selects the k-th element from the end. |
| CommonUtil.AtPeriodic | app/src/main/java/com/donut/tikdown/util/CommonUtil.kt:193-199 | Indices that differ by a multiple of the size select the same element. |
| CommonUtil.Truncate | app/src/main/java/com/donut/tikdown/util/CommonUtil.kt:174-180 | A string within the limit is unchanged. A longer one keeps `maxLength` characters followed by `...`, for length `maxLength + 3`. A negative limit throws. |
| CommonUtil.TruncateIdempotent | app/src/main/java/com/donut/tikdown/util/CommonUtil.kt:174-180 | Truncating twice with the same limit equals truncating once. |
| Hex.ToHex | app/src/main/java/com/donut/tikdown/util/CommonUtil.kt:129-135 | Output is two lowercase hex digits per byte. |
| Hex.Format02x | app/src/main/java/com/donut/tikdown/util/CommonUtil.kt:132 | `%02x` of a byte is two lowercase digits whose value is the byte read as unsigned. |
| Hex.DigitValue | app/src/main/java/com/donut/tikdown/util/CommonUtil.kt:97 | A digit has a value exactly when it is an ASCII hex digit in either case. '0'-'9' are 0-9, and 'a'-'f' and 'A'-'F' are 10-15. |
| Hex.ParseChunk | app/src/main/java/com/donut/tikdown/util/CommonUtil.kt:97 | Two digits give `16*hi+lo`, `-d` gives `-d` and `+d` gives `d`. Every other chunk is rejected. The value lies in [-15, 255] and is negative only after a leading `-`. |
| Hex.DigitValueIgnoresCase | app/src/main/java/com/donut/tikdown/util/CommonUtil.kt:97 | Lower-casing a character does not change its digit value. |
| Hex.ParseChunkIgnoresCase | app/src/main/java/com/donut/tikdown/util/CommonUtil.kt:97 | Lower-casing a chunk does not change what `toInt(16)` reads. |
| Hex.DecodeHex | app/src/main/java/com/donut/tikdown/util/CommonUtil.kt:93-99 | An odd length is exactly the "Must have an even length" failure. A success holds half as many bytes as the input has characters. |
| Hex.DecodeChunks | app/src/main/java/com/donut/tikdown/util/CommonUtil.kt:96-98 | A success has one byte per two characters. A failure is an invalid two-character chunk. |
| Hex.DecodeChunksByChunk | app/src/main/java/com/donut/tikdown/util/CommonUtil.kt:96-98 | Decoding succeeds exactly when every chunk parses, and byte `i` is then chunk `i`'s value truncated to a `Byte`. |
| Hex.DecodeChunksFailsAtFirstBad | app/src/main/java/com/donut/tikdown/util/CommonUtil.kt:96-98 | A failure names the first chunk `toInt(16)` rejects, and every chunk before it parses. |
| Hex.HexRoundTrip | app/src/main/java/com/donut/tikdown/util/CommonUtil.kt:93-99 | `decodeHex(toHex(b)) == b` for every byte array, negative bytes included. |
| Hex.LowerHexRoundTrip | app/src/main/java/com/donut/tikdown/util/CommonUtil.kt:129-135 | Even-length lowercase hex text decodes, and re-encoding it gives the text back. |
| Hex.DecodeHexIgnoresCase | app/src/main/java/com/donut/tikdown/util/CommonUtil.kt:93-99 | Text and its lowercase form are accepted together and decode to the same bytes. |
| Hex.AnyCaseHexRoundTrip | app/src/main/java/com/donut/tikdown/util/CommonUtil.kt:93-99 | Even-length hex text in either case decodes, and re-encoding gives its lowercase form. |
| Hex.UppercaseAndPlusChunks | app/src/main/java/com/donut/tikdown/util/CommonUtil.kt:93-99 | "FF" decodes to the byte -1 and "+f" to 15. |
| Hex.DecimalDigitChunk | app/src/main/java/com/donut/tikdown/util/CommonUtil.kt:93-135 | The byte 2 prints as "02", and "02" decodes to 2. |
| Hex.SignedChunkAliases | app/src/main/java/com/donut/tikdown/util/CommonUtil.kt:97 | `"-f"` and `"f1"` decode to the same byte (-15), so decoding is not injective. |
| CachedDelegate.GetValue | app/src/main/java/com/donut/tikdown/util/CommonUtil.kt:106-113 | The initializer runs exactly when nothing is cached or the keys changed, and its value or exception is the result. The keys are always replaced, and a throwing initializer keeps the old value. Otherwise the stored value is returned and nothing changes. |
| CachedDelegate.SetValue | app/src/main/java/com/donut/tikdown/util/CommonUtil.kt:115-117 | Setting replaces the value and keeps the keys. |
| CachedDelegate.RereadIsCached | app/src/main/java/com/donut/tikdown/util/CommonUtil.kt:106-113 | A second read with the same keys does not recompute and returns the same value. |
| CachedDelegate.SetThenGet | app/src/main/java/com/donut/tikdown/util/CommonUtil.kt:106-117 | A set value is read back while the keys stay the same. New keys recompute. |
| CachedDelegate.FirstReadComputes | app/src/main/java/com/donut/tikdown/util/CommonUtil.kt:103-113 | The first read of a new delegate runs the initializer. |
| CachedDelegate.FailedInitLeavesStaleValue | app/src/main/java/com/donut/tikdown/util/CommonUtil.kt:106-113 | After the initializer throws under new keys, the next read with those keys returns the old value without recomputing. |
| ElementEquals.ElementEquals | app/src/main/java/com/donut/tikdown/util/CommonUtil.kt:205-224 | True exactly when the first list has no null and the two lists are equal as multisets. So different sizes give false. |
| ElementEquals.FindFree | app/src/main/java/com/donut/tikdown/util/CommonUtil.kt:212-219 | The inner loop finds the first unclaimed equal element, or establishes that none is left. |
| ElementEquals.Unmatched | app/src/main/java/com/donut/tikdown/util/CommonUtil.kt:205-223 | An element left without a partner shows the lists differ as multisets, or that it is null. |
| Tiktok.OnNavigation | app/src/main/java/com/donut/tikdown/util/Tiktok.kt:133-149 | Suppress exactly the non-http(s) URLs. A note share is rejected with "不支持图文". A slides share that is not a note is rejected with "不支持分段视频". Nothing else decides. |
| Tiktok.OnRequest | app/src/main/java/com/donut/tikdown/util/Tiktok.kt:151-173 | A captcha gives "出现验证码". Removed content without a captcha gives "作品已失效". A `video_id=` with neither marker gives the extracted id. There is no decision exactly when none of the three markers occurs, and an id never has `&`. |
| Tiktok.ExtractVideoId | app/src/main/java/com/donut/tikdown/util/Tiktok.kt:168 | The id never contains `&`. |
| Tiktok.ExtractVideoIdIsFirstParameter | app/src/main/java/com/donut/tikdown/util/Tiktok.kt:166-169 | The id is the text between the first `video_id=` and the next `&` or the end. |
| Tiktok.Resume | app/src/main/java/com/donut/tikdown/util/Tiktok.kt:140-169 | A resumed continuation keeps its value. A fresh one takes the attempt. |
| Tiktok.DeliverFirstDecision | app/src/main/java/com/donut/tikdown/util/Tiktok.kt:133-173 | The outcome is undecided exactly when no event decides. Otherwise it is the decision of the first deciding event. |
| Tiktok.ResolveIgnoresLaterEvents | app/src/main/java/com/donut/tikdown/util/Tiktok.kt:140-169 | Once decided, later events cannot change the outcome. |
| Tiktok.GetVideoId | app/src/main/java/com/donut/tikdown/util/Tiktok.kt:47-60 | Success exactly when the first decision is an id, and the value is that id. A rejection is an ordinary exception carrying its message. With no decision, the deadline gives a timeout and caller cancellation gives a plain cancellation. |
| Tiktok.DecisionsCarryCleanIds | app/src/main/java/com/donut/tikdown/util/Tiktok.kt:168-169 | A resolved id has no `&`, whichever event produced it. |
| Tiktok.ResolvedIdComesFromRequest | app/src/main/java/com/donut/tikdown/util/Tiktok.kt:166-171 | A resolved id comes from the first decisive event. That event is a request with `video_id=` and no captcha or removed marker, and the id is its extracted parameter. |
| Tiktok.DeletesOnCompletion | app/src/main/java/com/donut/tikdown/util/Tiktok.kt:93-103 | Delete only when the job ended with a cancellation (timeouts included), a URI was inserted, and SDK >= 30. Never after normal completion. |
| Tiktok.SaveFileToStorage | app/src/main/java/com/donut/tikdown/util/Tiktok.kt:92-117 | A throwing insert propagates its exception and leaves no entry. A transfer happens exactly when a URI was inserted and its stream opened. No URI returns null. A throwing open or transfer propagates its exception. Otherwise the URI is returned. |
| Tiktok.CancelledSaveLeavesNoFile | app/src/main/java/com/donut/tikdown/util/Tiktok.kt:93-117 | A cancelled transfer on R+ propagates the cancellation and deletes the entry. Without a URI there is nothing to delete. |
| Tiktok.FailedSaveKeepsEntry | app/src/main/java/com/donut/tikdown/util/Tiktok.kt:93-117 | A save that fails with anything but a cancellation keeps its inserted entry on every platform. |
| MainActivity.DirectLink | app/src/main/java/com/donut/tikdown/MainActivity.kt:310-311 | The link is the play-URL template followed by the id. |
| MainActivity.PrefixKeyPosition | app/src/main/java/com/donut/tikdown/MainActivity.kt:310-311 | The template's first `video_id=` is the one at its end. |
| MainActivity.DirectLinkRoundTrip | app/src/main/java/com/donut/tikdown/MainActivity.kt:310-311 | Extracting the id from a direct link gives the id up to its first `&`, so an id without `&` comes back unchanged. |
| MainActivity.Dispatch | app/src/main/java/com/donut/tikdown/MainActivity.kt:322-337 | A non-timeout cancellation is silent. The three unsupported-content messages are reported without retry. Anything else is reported with ",重试中" and retried on the same input. |
| MainActivity.Toast | app/src/main/java/com/donut/tikdown/MainActivity.kt:298-337 | A silent reaction shows no toast. Showing the info is preceded by "解析成功!", and every report shows its own message. |
| MainActivity.FetchVideo | app/src/main/java/com/donut/tikdown/MainActivity.kt:295-348 | No URL reports "请输入正确的分享链接". A failed resolve of the last URL, or a failed HEAD, goes to the dispatcher with the input. A non-2xx HEAD reports "不支持广告或无法播放". Info is shown exactly for the last URL's id with a 2xx HEAD, and a missing length counts as 0. A retry carries the original input, and silence comes only from a cancellation. |
| MainActivity.UnsupportedContentIsFinal | app/src/main/java/com/donut/tikdown/MainActivity.kt:326-331 | A note, slides or removed-content rejection ends in one report with no retry. |
| MainActivity.CaptchaOrTimeoutRetries | app/src/main/java/com/donut/tikdown/MainActivity.kt:333-336 | A captcha, or a wait cut off by the ten-second guard, is reported and retried on the same input. |
| MainActivity.CallerCancelIsSilent | app/src/main/java/com/donut/tikdown/MainActivity.kt:323-325 | Cancellation by the caller before any decision ends the attempt silently. |
| Scenarios.ShareTextExtraction | app/src/main/java/com/donut/tikdown/util/CommonUtil.kt:55-64 | The share text "看看这个 https://v.douyin.com/abc123/ 真好笑" yields exactly the short link. The Chinese prose and the space around it are not captured. |
| Scenarios.PlayRequestDecides | app/src/main/java/com/donut/tikdown/util/Tiktok.kt:156-169 | A request for the play URL with `video_id=999` has neither rejection marker and resolves to id "999". |
| Scenarios.ShareEventsResolve | app/src/main/java/com/donut/tikdown/util/Tiktok.kt:133-173 | The request for the short link, which carries no marker, followed by the request for the play URL resolves to id "999". |
| Scenarios.NoteEventsResolve | app/src/main/java/com/donut/tikdown/util/Tiktok.kt:138-142 | A redirect from the short link to a `share/note/` page resolves to the rejection "不支持图文". |
| Scenarios.CaptchaEventsResolve | app/src/main/java/com/donut/tikdown/util/Tiktok.kt:156-160 | A request to a `/captcha/` URL after the short link resolves to the rejection "出现验证码". |
| Scenarios.UndecidedEventsResolve | app/src/main/java/com/donut/tikdown/util/Tiktok.kt:133-173 | The short link alone makes no decision, so the continuation stays open. |
| Scenarios.ShareTextShowsInfo | app/src/main/java/com/donut/tikdown/MainActivity.kt:295-321 | For the share text and id 999, a 2xx HEAD shows the info with the reported size, or 0 when none is reported. Status 403 reports "不支持广告或无法播放". |
| Scenarios.NoteIsReported | app/src/main/java/com/donut/tikdown/MainActivity.kt:326-331 | For the share text, a note redirect is reported as "解析失败(不支持图文)" with no retry. |
| Scenarios.CaptchaIsRetried | app/src/main/java/com/donut/tikdown/MainActivity.kt:333-336 | For the share text, a captcha is reported as "解析失败(出现验证码),重试中" and the same share text is fetched again. |
| Scenarios.TimeoutIsRetried | app/src/main/java/com/donut/tikdown/MainActivity.kt:322-336 | For the share text, a wait cut off by the ten-second guard is reported with the timeout message and retried on the same text. |
| Scenarios.LeavingIsSilent | app/src/main/java/com/donut/tikdown/MainActivity.kt:323-325 | For the share text, leaving the screen before any decision ends the attempt with no message and no retry. |
| MainActivity.DefaultVideoName | app/src/main/java/com/donut/tikdown/MainActivity.kt:208-211 | The name is "抖音下载" without `#`. Otherwise it is the text between the first `#` and the next `#` or the end, and has no `#`. |
| MainActivity.VideoFileName | app/src/main/java/com/donut/tikdown/MainActivity.kt:240 | The stored file name is the chosen name followed by `.mp4`. |
| Progress.CoerceAtLeastOne | app/src/main/java/com/donut/tikdown/util/Progress.kt:39 | The clamped length is at least 1 and at least the total. It equals the total when that is positive, and is exactly 1 otherwise. |
| Progress.UpdateProgress | app/src/main/java/com/donut/tikdown/util/Progress.kt:37-41 | The written count is overwritten and the length becomes `max(total, 1)`. The ratio is written / length, never a division by zero. |
| Progress.Refresh | app/src/main/java/com/donut/tikdown/util/Progress.kt:37-41 | `updateProgress()` keeps the count, clamps the length, and recomputes the ratio from them. |
| Progress.KtorListener | app/src/main/java/com/donut/tikdown/util/Progress.kt:33-35 | The listener overwrites both counts and recomputes the ratio. |
| Progress.IncreaseBytesWritten | app/src/main/java/com/donut/tikdown/util/Progress.kt:54-58 | The count grows by the delta, wrapping as a `Long`. The length is clamped and the ratio recomputed. |
| Progress.RefreshIdempotent | app/src/main/java/com/donut/tikdown/util/Progress.kt:37-41 | A second default-argument update changes nothing. |
| Progress.UpdateForgetsPrevious | app/src/main/java/com/donut/tikdown/util/Progress.kt:37-41 | An explicit update does not depend on the previous record. |
| Progress.KtorListenerIsUpdate | app/src/main/java/com/donut/tikdown/util/Progress.kt:33-35 | The listener has exactly the effect of `updateProgress(bytes, length)`. |
| Progress.ProgressBounded | app/src/main/java/com/donut/tikdown/util/Progress.kt:37-41 | While 0 <= written <= total, the ratio lies in [0, 1]. |
| Progress.ChunksAccumulate | app/src/main/java/com/donut/tikdown/util/Progress.kt:54-58 | With non-negative deltas and no overflow, the count is the start plus the deltas' sum and never decreases. |
| Progress.DownloadCompletes | app/src/main/java/com/donut/tikdown/util/Progress.kt:29-58 | From a new record (all fields zero), chunks summing to the announced total end at ratio exactly 1. |

## Left out

- `getVideoId`'s concurrency is not modelled: the mutex, `withTimeout`'s timer,
  `suspendCancellableCoroutine` and `race`. Only their outcomes are. The guard
  that ends an undecided wait is a `Guard` parameter, and the events delivered
  before it are a sequence. The timeout message "Timed out waiting for 10000
  ms" is the library's wording, carried as a constant.
- A second resume of the continuation throws `IllegalStateException` inside
  the WebView callback. This happens when one URL holds two markers, or when
  later requests still carry `video_id=`. Nothing catches it there, so it
  escapes the callback and can end the app's process. The model keeps the
  first outcome, which is what the waiting coroutine sees, and does not follow
  the throw or the crash. The same holds after a timeout or a caller
  cancellation. No cancellation handler destroys the WebView, so the page
  keeps loading. The first decisive event after that resumes the cancelled
  continuation and is dropped silently, and a second one throws.
- WebView setup is left out: cookies, the user agent, `loadUrl`, the
  asynchronous `webView.destroy()` and `onPageFinished`. These are host
  browser plumbing.
- The ktor client, the HEAD and GET requests, and `copyTo` are left out. So
  are `ContentResolver.insert`, `openOutputStream` and `delete`. Their results,
  and the exceptions they throw, are inputs to the model.
- `Progress`: `progress` is a `Float` in the app and an exact real here.
  `Float` rounding is not modelled.
- `LoadingBar` and all Compose UI are left out: dialogs, toasts as display,
  the video player. A toast is represented only by its text in `Reaction`.
- `formatFileSize`, hashing, Base64, `isUrl`/`getUrlHost`, clipboard, dates,
  random strings and `getAppVersion` are left out. They are wrappers over
  libraries or platform services with no logic of their own here.
- Strings are sequences of Unicode scalar values. JVM strings are sequences
  of UTF-16 code units, so a character outside the Basic Multilingual Plane
  (an emoji such as "😀") has length 1 here and length 2 on the JVM. Lengths
  and positions differ for such text. Searches for ASCII delimiters find the
  same pieces of text either way.
- CommonUtil.Truncate: lengths count characters, not UTF-16 code units. For
  "😀" and a limit of 1 the model returns "😀" unchanged. The app sees length
  2 and returns the lone high surrogate "\uD83D" followed by "...".
- Hex.DecodeHex: lengths count characters, not UTF-16 code units. For "😀"
  the model fails with `OddLength`. The app passes the even-length check and
  then `toInt(16)` throws on the surrogate pair.
- UrlExtract.IsWordChar: `\w` is taken as ASCII `[A-Za-z0-9_]`, as in the
  JDK. Android's regex engine is ICU, whose `\w` also matches Unicode letters
  and digits. There, Chinese text written directly against a link, with no
  space between them, may be captured into the link.
- Hex.DigitValue: only ASCII hex digits are accepted. `Character.digit`
  also accepts other Unicode digit and letter forms in `toInt(16)`.
- Hex.DecodeHex: a rejected chunk is `InvalidChunk(chunk)`. The exact
  `NumberFormatException` wording is not kept.
- CommonUtil.Truncate: the message of the `StringIndexOutOfBoundsException`
  thrown for a negative limit is not kept, only that it throws. The same holds
  for the `ArithmeticException` of `CommonUtil.At` on an empty list.
- CachedDelegate.GetValue: cached values are non-null. With a nullable `T` whose
  initializer returns `null`, every read runs the initializer again and then
  `cache!!` throws `NullPointerException`. After `setValue(null)`, only the
  next read recomputes. The model covers neither case.
- MainActivity.DefaultVideoName: only the name the dialog proposes is
  modelled. The user may edit it in the dialog, which is UI input, so
  `MainActivity.VideoFileName` takes the final name as an argument.
- Tiktok.SaveFileToStorage: the job that owns the completion handler is the
  caller's coroutine, so how it ends is a separate argument of
  `Tiktok.DeletesOnCompletion`. `Tiktok.FailedSaveKeepsEntry` assumes that job
  ends with the exception the save threw.
