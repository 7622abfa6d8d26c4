# CyperIA phishing checker — a Dafny model

CyperIA is a Gmail browser extension backed by a small Flask service. The
extension's content script collects the URLs of an open message. It sends
each anchor link of the message body to the service's `/predict` endpoint
and puts a warning sign or a check mark after the link. It also checks every
URL of the page on behalf of the sender and puts a green or red icon before
the sender's name. The service normalises the URL, answers on its own for
trusted domains, and otherwise computes a row of features for its trained
classifier. The extension's background page relays the latest analysis
results to the popup.

The project models three parts:

- **`content.js`** (modules `Content`, `TextScan`, `OrderedSet`).
  - URL extraction. The anchor hrefs and the plain-text matches of
    `/(https?:\/\/[^\s]+)/g` go into an insertion-ordered `Set`. The regular
    expression is an explicit left-to-right scanner.
  - The link pass. Anchors are `Link(href, checked)` records in an array, and
    a link is marked `checked` before it is submitted.
  - The verdict indicator, a pure mapping.
  - The sender check. Each call has its own object holding `isSafe`, the
    replies arrive as a sequence of events, and the sender element is an
    object with its `sender-processed` mark and its icons.
- **`app.py`** (modules `UrlParse`, `UrlFeatures`, `Backend`).
  - The part of `urlparse` the service reads: scheme, network location, path.
  - The integer and 0/1 features of `extract_url_features`.
  - `predict` up to the point where the classifier is consulted.
- **`background.js`** (module `Background`). The one-cell results store and
  its message listener, as a class. With it come a pure fold over message
  sequences and an independent "latest update" reading.

`Strings` and `Wrappers` hold shared helpers:

- ASCII character classes and lower-casing;
- Python's `in` on strings, `count` and `split` with one separator;
- `join` and `endswith`;
- the position scan of `re.search`;
- an `Option` type standing for JavaScript's `undefined` and Python's `None`.

The extension keeps no per-URL state beyond one flag per link:

- a link is marked checked before its request is sent, and a failed request
  leaves it checked, with no retry;
- `checkSender` submits every URL of the page again on every call;
- the background page keeps only the last list it was sent.

An error reply from the service has no `is_phishing` member. Both callbacks
in `content.js` read it as `undefined`, that is as "safe". The model keeps
this as written: `Content.Reply.ErrorReply` gives a "Safe link" mark and can
give the sender a green icon.

## Model

| member | source | states |
|---|---|---|
| OrderedSet.DedupSnoc | extension/content.js:7 | Adding a value already in the set leaves it unchanged; a new value is appended at the end. |
| OrderedSet.Dedup | extension/content.js:3-15 | The contents of the `Set` filled by `add` calls, as `Array.from` returns them; characterised by DedupIsDistinctValues, DedupKeepsFirstOccurrenceOrder and DedupAppend. |
| OrderedSet.DedupIsDistinctValues | extension/content.js:3-15 | The set's contents hold no value twice and hold exactly the values that were added. |
| OrderedSet.DedupKeepsFirstOccurrenceOrder | extension/content.js:15 | `Array.from(set)` lists the values in the order of their first insertion. |
| OrderedSet.DedupAppend | extension/content.js:7-13 | Adding a list and then a second one gives the distinct values of the first, then the distinct values of the second that are not in the first. |
| OrderedSet.WithoutValues | extension/content.js:13 | A value survives the filtering iff it was present and is not excluded. |
| TextScan.PrefixAt | extension/content.js:11 | The length of the `https?://` part of a match beginning at a position (7, 8 or 0), always followed by a non-whitespace character. |
| TextScan.PrefixAtIff | extension/content.js:11 | A match begins at a position exactly when `https://` or `http://` starts there and is followed by a non-whitespace character, and the prefix length is that scheme's. |
| TextScan.RunEnd | extension/content.js:11 | The greedy `[^\s]+` run stops at the first ECMAScript whitespace character or at the end of the text. |
| TextScan.SpansFrom | extension/content.js:11-12 | The global search resuming at a position: a match runs from its `https?://` prefix to the next white space and the search resumes after it; characterised by SpansAreMatches, SpansAreOrdered and SpansCoverEveryMatchStart. |
| TextScan.TextMatches | extension/content.js:12 | `text.match(regex)`: the texts of the spans found from the start; every one is a text URL by MatchesAreTextUrls, and MatchAll computes it. |
| TextScan.SpansAreMatches | extension/content.js:11-12 | Every reported span is a full match: a scheme prefix followed by a maximal non-whitespace run. |
| TextScan.SpansAreOrdered | extension/content.js:11-12 | Matches do not overlap, come in text order, and each ends at whitespace or at the end of the text. |
| TextScan.SpansCoverEveryMatchStart | extension/content.js:11-12 | No URL is missed: every position where a match could begin lies inside a reported match, so an inner `http://` is covered rather than reported. |
| TextScan.EveryUrlStartIsCovered | extension/content.js:11-12 | Every position where `http://` or `https://` is followed by a non-whitespace character lies inside a match reported from the start of the text. |
| TextScan.MatchesAreTextUrls | extension/content.js:11-13 | Every text-derived URL starts with `http://` or `https://`, has at least one character after `://`, and contains no whitespace. |
| TextScan.MatchAll | extension/content.js:11-13 | The left-to-right scanning loop returns exactly the matches of the global search. |
| TextScan.SkipRun | extension/content.js:11-12 | The inner loop consumes exactly the greedy run of non-white-space characters after the scheme. |
| Content.ExtractURLsFromBody | extension/content.js:2-16 | The result has no duplicates and holds exactly the anchor hrefs plus the text matches: the distinct hrefs in document order, then the new text matches in text order. |
| Content.Hrefs | extension/content.js:6-7 | The href list has one entry per anchor, in document order. |
| Content.EmailBody.constructor | extension/content.js:70-74 | The body container holds its anchors, as an array of links updated in place, and its text. |
| Content.ToSubmit | extension/content.js:75-81 | The positions of the links one pass submits, in document order; ToSubmitIff shows these are exactly the eligible links. |
| Content.MarkChecked | extension/content.js:75-81 | The links after one pass, every eligible one now checked; NoLinkIsSubmittedTwice shows nothing stays eligible and a second pass changes nothing. |
| Content.ToSubmitIff | extension/content.js:75-81 | A link is submitted iff its href is non-empty and it is not yet checked; submissions come in document order, each at most once. |
| Content.NoLinkIsSubmittedTwice | extension/content.js:77-78 | After one pass every eligible link is checked, so a second pass submits nothing; hrefs are unchanged and marking is idempotent. |
| Content.TextOnlyUrlsAreNeverSubmitted | extension/content.js:73-84 | A URL found only in the text is returned by the pass but never submitted. |
| Content.CheckLinks | extension/content.js:74-81 | The loop submits exactly the eligible links and leaves the array with those links checked and every other link unchanged. |
| Content.ProcessEmailLinks | extension/content.js:69-85 | With no body nothing happens; otherwise it returns the body's URLs, submits the eligible anchors and marks them checked. |
| Content.MonitorLinks | extension/content.js:127-137 | Over any number of repeated passes on an unchanged page, each eligible link is submitted exactly once, on the first pass. |
| Content.AddIndicator | extension/content.js:19-29 | `true` gives the warning sign, red, "Phishing link detected!"; `false` gives the check mark, green, "Safe link"; each field alone tells the two apart. |
| Content.CheckUrlIndicator | extension/content.js:50-66 | A failed request adds no indicator; a verdict adds the indicator for `is_phishing`; a body without the field adds the safe indicator. |
| Content.IconFor | extension/content.js:39 | The green icon is chosen iff the sender is safe, the red one iff not. |
| Content.IconStep | extension/content.js:35-46 | One `addSenderIcon`: an unprocessed sender is marked and gets one icon, a processed one is left alone; MarkedSenderIsFinal and FirstSettledReplyDecidesIcon build on it. |
| Content.SenderElement.constructor | extension/content.js:33 | A sender element starts unprocessed and with no icon. |
| Content.AddSenderIcon | extension/content.js:32-47 | An unmarked sender is marked and gets exactly one icon for `isSafe`; a marked sender or a missing one is left unchanged. |
| Content.SenderCheck.constructor | extension/content.js:96-97 | Each call starts with its own `isSafe` set to `true`. |
| Content.SenderCheck.OnReply | extension/content.js:108-118 | A phishing verdict clears `isSafe` and nothing sets it again; every settled reply calls the icon step; a failure changes nothing. |
| Content.CheckSender | extension/content.js:88-120 | With no sender nothing happens; otherwise every URL of the whole page is submitted afresh under a new `isSafe` that is `true`. |
| Content.DeliverReplies | extension/content.js:100-119 | Delivering the replies one by one yields the state given by the pure fold over the reply sequence. |
| Content.AfterReplies | extension/content.js:100-118 | `isSafe` and the sender element after the replies of one call arrive in order; characterised by IsSafeOnlyFalls, MarkedSenderIsFinal and FirstSettledReplyDecidesIcon. |
| Content.IsSafeOnlyFalls | extension/content.js:97-112 | After any replies `isSafe` is true iff it started true and no reply reported phishing. |
| Content.MarkedSenderIsFinal | extension/content.js:35 | Once the sender is marked, no later reply changes it. |
| Content.FirstSettled | extension/content.js:108-118 | The first reply whose callback runs: all earlier ones failed. |
| Content.FirstSettledReplyDecidesIcon | extension/content.js:110-114 | Only the first settled reply affects an unmarked sender: it gets one icon, green unless that reply reports phishing; with no settled reply it stays unmarked. |
| Content.GreenIconSurvivesLaterPhishingReply | extension/content.js:110-114 | A safe reply followed by a phishing one leaves `isSafe` false while the icon stays green. |
| Content.ErrorReplyReadsAsSafe | extension/content.js:59-61 | A reply without `is_phishing` gives the "Safe link" mark and a green sender icon. |
| Strings.ContainsIff | backend/app.py:34-35 | Python's `t in s` holds iff `t` occurs in `s` at some position. |
| Strings.Contains | backend/app.py:34-35 | Python's `t in s`; ContainsIff shows it holds iff `t` occurs at some position of `s`. |
| Strings.Count | backend/app.py:39 | Python's `s.count(c)`; CountAppend, CountSlice and SplitCount relate it to concatenation, slices and `split`. |
| Strings.Lower | backend/app.py:34-35 | ASCII `str.lower()`: same length, each character lower-cased, no upper-case letter left. |
| Strings.Split | backend/app.py:23 | Python's `s.split(sep)`: at least one part; characterised by SplitCount, SplitPartsHaveNoSeparator, JoinSplit and SplitAtFirst. |
| Strings.AnywhereIff | backend/app.py:36 | `re.search` succeeds iff the pattern matches at the start of some suffix. |
| Strings.SplitCount | backend/app.py:32 | `s.split(sep)` has one more part than `s` has separators. |
| Strings.JoinSplit | backend/app.py:67 | Joining the parts of a split with the same separator gives back the string. |
| Strings.SplitAtFirst | backend/app.py:23 | The first part of a split runs up to the first separator, and the rest is the split of what follows it. |
| UrlParse.Parse | backend/app.py:22 | The scheme is lower-case; the network location holds no `/`, `?` or `#` and is empty without `//`; the path holds no `?` or `#` and starts with `/` after a network location; the parts fit in the URL. |
| UrlParse.HttpUrlParts | backend/app.py:61-64 | For a URL starting with `http://` or `https://`, the scheme is `http` or `https` and the network location runs after the `//` up to the first `/`, `?` or `#`. |
| UrlFeatures.Bit | backend/app.py:27 | `int(b)` is 0 or 1, and 1 iff `b`. |
| UrlFeatures.ExtractUrlFeatures | backend/app.py:20-45 | `url_length` is the URL's length and `domain_length` is the feature domain's length. |
| UrlFeatures.FeatureDomain | backend/app.py:22-23 | The network location up to its first `:`; DomainLengthsNest and NumSubdomainsCountsDots bound the features read from it. |
| UrlFeatures.MatchesDottedQuad | backend/app.py:27 | `re.match(r'^\d+\.\d+\.\d+\.\d+$', domain)`; DottedQuadIff shows it holds iff the domain is four digit labels, optionally followed by one newline. |
| UrlFeatures.DigitRun | backend/app.py:27 | The leading run of ASCII digits is maximal. |
| UrlFeatures.DigitGroupsIff | backend/app.py:27 | The left-to-right matcher for `\d+(\.\d+)*` agrees with the label-by-label reading (split at `.`, every label a non-empty digit run). |
| UrlFeatures.DottedQuadIff | backend/app.py:27 | The anchored match, with Python's `$` also allowing one final newline, agrees with the four-label reading. |
| UrlFeatures.DomainHasIpIff | backend/app.py:27 | `domain_has_ip` is 1 exactly when the feature domain is four dot-separated digit runs. |
| UrlFeatures.IsCommonTldIff | backend/app.py:33 | `is_common_tld` is 1 exactly when the domain ends, case-sensitively, with a listed suffix. |
| UrlFeatures.ContainsAnyIff | backend/app.py:34-35 | `any(t in s for t in terms)` holds iff some term occurs at some position. |
| UrlFeatures.TyposquattingIff | backend/app.py:34 | `typosquatting` is 1 exactly when a listed look-alike occurs in the lower-cased domain. |
| UrlFeatures.HasBankingKwIff | backend/app.py:35 | `has_banking_kw` is 1 exactly when a listed keyword occurs in the lower-cased URL. |
| UrlFeatures.HasHexIff | backend/app.py:36 | `has_hex` is 1 exactly when some `%` is followed by two hexadecimal digits. |
| UrlFeatures.HasAtSymbolIff | backend/app.py:37 | `has_at_symbol` is 1 exactly when the URL contains `@`. |
| UrlFeatures.UsesHttpsIff | backend/app.py:38 | `uses_https` is 1 exactly when the URL has a scheme spelt `https` in any case. |
| UrlFeatures.ConsecutiveCharsIff | backend/app.py:43 | `consecutive_chars` is 1 exactly when one letter appears three times in a row in the domain, case-sensitively. |
| UrlFeatures.FlagsAreBits | backend/app.py:27-43 | Every flag feature is 0 or 1. |
| UrlFeatures.SpecialCharsAndDigitsFit | backend/app.py:26-29 | `num_special_chars + num_digits <= url_length`: no special character is a digit. |
| UrlFeatures.DomainLengthsNest | backend/app.py:30-31 | `subdomain_length <= domain_length <= url_length`. |
| UrlFeatures.NumSubdomainsCountsDots | backend/app.py:32 | `num_subdomains` equals the number of `.` in the feature domain. |
| UrlFeatures.PathDepthBounded | backend/app.py:39 | `path_depth` is at most the number of `/` in the URL, which is at most `num_special_chars`. |
| UrlFeatures.AtSymbolIsSpecial | backend/app.py:37 | A URL with `@` has at least one special character. |
| UrlFeatures.DottedQuadHasThreeDots | backend/app.py:27 | A dotted-quad host has `num_subdomains` equal to 3. |
| Backend.EnsureScheme | backend/app.py:61-62 | A URL with `http://` or `https://` is unchanged; any other gets `https://` in front; the result always has one of the two prefixes and ends with the input. |
| Backend.EnsureSchemeIdempotent | backend/app.py:61-62 | Normalising twice is normalising once. |
| Backend.LookupDomain | backend/app.py:64-66 | The lookup domain is the lower-cased network location with one leading `www.` removed (port kept), and it holds no upper-case letter. |
| Backend.BaseDomain | backend/app.py:67 | The base domain is a suffix of the domain with at most one `.`: the whole domain if it has at most one `.`, otherwise exactly its last two labels. |
| Backend.BaseDomainOfManyLabels | backend/app.py:67 | Joining the last two labels gives a suffix after a `.` with exactly one `.`. |
| Backend.Predict | backend/app.py:53-78 | A missing or empty URL gives a 400 error and nothing else; a trusted base domain gives `is_phishing` false, confidence "high", probability 0.05, `trusted_domain` true, and no features; otherwise the features of the normalised URL go to the classifier. |
| Backend.NormalisedScheme | backend/app.py:61-62 | After normalisation the scheme is `https` iff the URL came with `https://` or with neither prefix. |
| Backend.ConsultedUsesHttps | backend/app.py:61-78 | For a URL that reaches the classifier, `uses_https` is 1 iff the URL came with `https://` or with neither prefix. |
| Background.StoreIsLatestUpdate | extension/background.js:2-14 | Processing messages one by one leaves exactly the results of the latest `updateResults`. |
| Background.StoreAfter | extension/background.js:5-8 | The store after one message: `updateResults` replaces it with the message's results, any other action keeps it. |
| Background.ReplyTo | extension/background.js:9-11 | `getResults` is answered with the current store; no other action gets a reply. |
| Background.StoreAfterAll | extension/background.js:4-12 | The store after messages arrive in order; StoreIsLatestUpdate shows it equals LatestUpdate. |
| Background.LatestUpdate | extension/background.js:6-7 | The independent reading: the results of the last `updateResults`, or the initial store; LatestUpdateIsLastWrite and LatestUpdateWithoutUpdate pin it down. |
| Background.LastWriteWins | extension/background.js:6-7 | The final `updateResults` replaces everything before it, with no merge; with no update the store is as it was. |
| Background.GetSeesLatestUpdate | extension/background.js:9-11 | `getResults` answers with the latest update and changes nothing; before any update it answers with the empty list. |
| Background.ResultsRelay.constructor | extension/background.js:2 | The store starts as the empty list. |
| Background.ResultsRelay.OnMessage | extension/background.js:4-14 | `updateResults` overwrites the store; `getResults` replies with it and keeps it; any other action changes nothing and gets no reply; the listener returns `true`. |
| Background.Deliver | extension/background.js:4-14 | Delivering messages one by one leaves the store given by the fold, and each reply reflects the store after the messages before it. |

## Left out

- The DOM is abstract. Selector queries, `innerText`, element creation and
  styling, `insertBefore`, `chrome.runtime.getURL` and the MutationObserver
  of `waitForEmailBody` are not modelled, so the model cannot say which
  elements the selectors find.
- Content.ExtractURLsFromBody takes the anchors' resolved hrefs and the
  container's text as inputs. Resolving an `href` against the page address
  is not modelled.
- `fetch`, JSON decoding, promises and the five-second `setInterval` are not
  modelled. Replies are a sequence of arrival events; a failed request and a
  failed JSON decoding are both `Failure`.
- Console logging is not modelled, including the sender's email address
  that `checkSender` only logs.
- The per-link indicator and the per-URL requests of `checkSender` are not
  tied to the link elements.
- Content.MonitorLinks: assumes the page does not change between ticks.
  Links added later are covered by `Content.ProcessEmailLinks` itself.
- A page that writes its own `data-checked` values is not modelled: the
  flag is a boolean.
- The trained classifier is not modelled: `joblib.load`, the `DataFrame`
  and `predict_proba`. `Backend.Predict` returns `Consult(url, features)`
  where the model would be asked, and the trusted-domain set is a parameter.
- The floating-point parts are not modelled:
  - the `entropy` and `vowel_ratio` features;
  - the 0.75 threshold, `round` and the confidence bands of the classifier
    reply.
- UrlParse.Parse: a simplified `urlparse`.
  - It does not split `;params` off the path. The params part holds no `/`,
    so `path_depth` is unaffected.
  - It does not strip leading control characters and spaces, and it does not
    remove tabs and newlines.
  - It does not raise. `urlparse` raises `ValueError` on an unbalanced `[`
    or `]`, on a malformed bracketed host, and on non-ASCII characters whose
    NFKC form holds `/`, `?`, `#`, `@` or `:`. `predict` parses the
    normalised URL at backend/app.py:64 outside any `try`, so for these URLs
    the service fails with status 500. The content script's `response.json()`
    then rejects: a `Failure`, with no indicator and no sender icon.
    `Backend.Predict` instead gives these URLs a 200 response.
  - A parse error can thus never reach the bare `except` of
    `extract_url_features` or the "Failed to extract features" reply, since
    the same URL was parsed before; neither is modelled.
- Backend.Predict: gives a verdict or a classifier request for every
  non-empty URL, including the URLs on which `urlparse` raises and the
  service fails with status 500 (see UrlParse.Parse above).
- UrlFeatures.ExtractUrlFeatures: `\d`, `str.isdigit` and `str.lower` are
  restricted to ASCII. Python's versions also accept other Unicode digits
  and letters.
- JSON bodies that are not objects, and a `url` member that is not a
  string, are not modelled (the request's `url` is an optional string).
  Flask routing, CORS and `app.run` are framework plumbing.
- `extension/popup/popup.js` is rendering and listener wiring, so it is not
  part of this model.
