/** The content script of the extension: it collects the URLs of the open
    message, submits each anchor link to the classifier at most once, marks
    links with a verdict indicator, and marks the sender with an icon.

    The page is abstract: the anchors of a container are `Link` records in an
    array (their `href` and whether they carry `data-checked`), its visible
    text is a string, and the sender element is an object with its
    `sender-processed` mark and the icons inserted before it. Replies of the
    classifier arrive as a sequence of events. */
module Content {
  import opened Wrappers
  import opened TextScan
  import opened OrderedSet

  /** `extractURLsFromBody(container)`: the anchor hrefs, then the text
      matches, added to one `Set` and returned in insertion order. */
  method ExtractURLsFromBody(hrefs: seq<string>, text: string) returns (urls: seq<string>)
    ensures urls == Dedup(hrefs + TextMatches(text))
    ensures Distinct(urls)
    ensures forall u :: u in urls <==> u in hrefs || u in TextMatches(text)
    ensures urls == Dedup(hrefs) + Without(Dedup(TextMatches(text)), hrefs)
  {
    urls := [];
    for i := 0 to |hrefs|
      invariant urls == Dedup(hrefs[..i])
    {
      assert hrefs[..i + 1] == hrefs[..i] + [hrefs[i]];
      DedupSnoc(hrefs[..i], hrefs[i]);
      if hrefs[i] !in urls {
        urls := urls + [hrefs[i]];
      }
    }
    var matches := MatchAll(text);
    assert hrefs[..|hrefs|] == hrefs + matches[..0];
    for j := 0 to |matches|
      invariant urls == Dedup(hrefs + matches[..j])
    {
      assert hrefs + matches[..j + 1] == (hrefs + matches[..j]) + [matches[j]];
      DedupSnoc(hrefs + matches[..j], matches[j]);
      if matches[j] !in urls {
        urls := urls + [matches[j]];
      }
    }
    assert matches[..|matches|] == matches;
    DedupIsDistinctValues(hrefs + matches);
    DedupAppend(hrefs, matches);
  }

  // ---------------------------------------------------------------------
  // Link checks: processEmailLinks, checkURL, addIndicator
  // ---------------------------------------------------------------------

  /** An anchor of the message body: its resolved `href` and whether it
      carries `data-checked`. */
  datatype Link = Link(href: string, checked: bool)

  /** The message body container (`div.a3s`): its anchors and its text. */
  class EmailBody {
    const links: array<Link>
    const text: string

    constructor (links: array<Link>, text: string)
      ensures this.links == links && this.text == text
    {
      this.links := links;
      this.text := text;
    }
  }

  function Hrefs(ls: seq<Link>): (hs: seq<string>)
    ensures |hs| == |ls| && forall i :: 0 <= i < |ls| ==> hs[i] == ls[i].href
  {
    seq(|ls|, i requires 0 <= i < |ls| => ls[i].href)
  }

  /** The guard of `processEmailLinks`: a non-empty href not yet checked. */
  predicate Eligible(l: Link) { l.href != "" && !l.checked }

  /** The positions of the links one pass submits, in document order. */
  function ToSubmit(ls: seq<Link>): seq<nat>
  {
    if ls == [] then []
    else ToSubmit(ls[..|ls| - 1]) + (if Eligible(ls[|ls| - 1]) then [|ls| - 1] else [])
  }

  /** The links after one pass: every eligible link now carries `data-checked`. */
  function MarkChecked(ls: seq<Link>): seq<Link>
  {
    seq(|ls|, i requires 0 <= i < |ls| => if Eligible(ls[i]) then ls[i].(checked := true) else ls[i])
  }

  /** A link is submitted iff its href is non-empty and it is not yet
      checked; the submissions come in document order, each at most once. */
  lemma {:induction false} ToSubmitIff(ls: seq<Link>)
    ensures forall i: nat :: i in ToSubmit(ls) <==> i < |ls| && Eligible(ls[i])
    ensures forall a, b :: 0 <= a < b < |ToSubmit(ls)| ==> ToSubmit(ls)[a] < ToSubmit(ls)[b]
  {
    if ls != [] {
      var n := |ls| - 1;
      var prev := ToSubmit(ls[..n]);
      ToSubmitIff(ls[..n]);
      assert forall i :: 0 <= i < n ==> ls[..n][i] == ls[i];
      assert forall a :: 0 <= a < |prev| ==> prev[a] in prev && prev[a] < n;
    }
  }

  /** After a pass, a second pass over the same links submits nothing. */
  lemma NoLinkIsSubmittedTwice(ls: seq<Link>)
    ensures ToSubmit(MarkChecked(ls)) == []
    ensures Hrefs(MarkChecked(ls)) == Hrefs(ls)
    ensures MarkChecked(MarkChecked(ls)) == MarkChecked(ls)
  {
    NothingEligibleNothingSubmitted(MarkChecked(ls));
  }

  lemma {:induction false} NothingEligibleNothingSubmitted(ls: seq<Link>)
    requires forall i :: 0 <= i < |ls| ==> !Eligible(ls[i])
    ensures ToSubmit(ls) == []
  {
    if ls != [] {
      NothingEligibleNothingSubmitted(ls[..|ls| - 1]);
    }
  }

  /** Only anchors are submitted: a URL found in the text alone is returned
      by the pass but never sent to the classifier. */
  lemma TextOnlyUrlsAreNeverSubmitted(ls: seq<Link>, text: string, u: string)
    requires u in TextMatches(text) && u !in Hrefs(ls)
    ensures u in Dedup(Hrefs(ls) + TextMatches(text))
    ensures forall i :: i in ToSubmit(ls) ==> i < |ls| && ls[i].href != u
  {
    DedupIsDistinctValues(Hrefs(ls) + TextMatches(text));
    ToSubmitIff(ls);
    forall i | i in ToSubmit(ls) ensures i < |ls| && ls[i].href != u {
      assert Hrefs(ls)[i] == ls[i].href;
    }
  }

  /** `processEmailLinks()`: with no message body nothing happens; otherwise
      the URLs of the body are returned and every eligible anchor is marked
      checked and then submitted (`submitted` lists their positions). */
  method ProcessEmailLinks(body: EmailBody?) returns (urls: Option<seq<string>>, submitted: seq<nat>)
    modifies if body == null then {} else {body.links}
    ensures body == null ==> urls == None && submitted == []
    ensures body != null ==> urls == Some(Dedup(Hrefs(old(body.links[..])) + TextMatches(body.text)))
    ensures body != null ==> submitted == ToSubmit(old(body.links[..]))
    ensures body != null ==> body.links[..] == MarkChecked(old(body.links[..]))
  {
    if body == null {
      return None, [];
    }
    var found := ExtractURLsFromBody(Hrefs(body.links[..]), body.text);
    submitted := CheckLinks(body.links);
    return Some(found), submitted;
  }

  /** The `links.forEach` loop of `processEmailLinks`. */
  method CheckLinks(links: array<Link>) returns (submitted: seq<nat>)
    modifies links
    ensures submitted == ToSubmit(old(links[..]))
    ensures links[..] == MarkChecked(old(links[..]))
  {
    ghost var before := links[..];
    submitted := [];
    for i := 0 to links.Length
      invariant submitted == ToSubmit(before[..i])
      invariant forall k :: 0 <= k < i ==> links[k] == MarkChecked(before)[k]
      invariant forall k :: i <= k < links.Length ==> links[k] == before[k]
    {
      var link := links[i];
      assert before[..i + 1][..i] == before[..i];
      if link.href != "" && !link.checked {
        links[i] := link.(checked := true);  // marked before it is submitted
        submitted := submitted + [i];         // sent to the classifier
      }
    }
    assert before[..links.Length] == before;
  }

  /** The repeated `processEmailLinks()` of `main`, with the page unchanged
      between ticks: over any number of ticks each eligible link is
      submitted exactly once, on the first tick. */
  method MonitorLinks(body: EmailBody?, ticks: nat) returns (sent: seq<nat>)
    modifies if body == null then {} else {body.links}
    ensures body == null || ticks == 0 ==> sent == []
    ensures body != null && ticks > 0 ==> sent == ToSubmit(old(body.links[..]))
    ensures body != null && ticks > 0 ==> body.links[..] == MarkChecked(old(body.links[..]))
    ensures body != null && ticks == 0 ==> body.links[..] == old(body.links[..])
  {
    sent := [];
    var t := 0;
    while t < ticks
      invariant 0 <= t <= ticks
      invariant body == null || t == 0 ==> sent == []
      invariant body != null && t > 0 ==> sent == ToSubmit(old(body.links[..]))
      invariant body != null && t > 0 ==> body.links[..] == MarkChecked(old(body.links[..]))
      invariant body != null && t == 0 ==> body.links[..] == old(body.links[..])
    {
      ghost var before := if body == null then [] else body.links[..];
      var _, submitted := ProcessEmailLinks(body);
      if body != null && t > 0 {
        NoLinkIsSubmittedTwice(old(body.links[..]));
        assert before == MarkChecked(old(body.links[..]));
      }
      sent := sent + submitted;
      t := t + 1;
    }
  }

  /** The indicator `addIndicator` inserts after a link. */
  datatype Indicator = Indicator(symbol: string, color: string, title: string)

  const WarningSign: string := "\U{26A0}\U{FE0F}"
  const CheckMark: string := "\U{2705}"

  /** `addIndicator(link, isPhishing)`: a phishing verdict gives a red warning
      sign, any other a green check mark; each field alone tells the two apart. */
  function AddIndicator(isPhishing: bool): (r: Indicator)
    ensures r.symbol == WarningSign <==> isPhishing
    ensures r.color == "red" <==> isPhishing
    ensures r.title == "Phishing link detected!" <==> isPhishing
    ensures !isPhishing ==> r == Indicator(CheckMark, "green", "Safe link")
  {
    Indicator(if isPhishing then WarningSign else CheckMark,
              if isPhishing then "red" else "green",
              if isPhishing then "Phishing link detected!" else "Safe link")
  }

  /** One settled request to the classifier, as the script sees it. */
  datatype Reply =
    | Verdict(isPhishing: bool)  // a body with `is_phishing`
    | ErrorReply                 // a body without it (the service's 400 replies)
    | Failure                    // the request or the JSON decoding failed

  /** `data.is_phishing` is truthy; a body without the field reads as `undefined`. */
  predicate ReportsPhishing(r: Reply) { r.Verdict? && r.isPhishing }

  /** The `.then(data => ...)` callback runs (rather than `.catch`). */
  predicate Settled(r: Reply) { !r.Failure? }

  /** `checkURL(link, url)`: the indicator its reply adds after the link, if any. */
  function CheckUrlIndicator(reply: Reply): (r: Option<Indicator>)
    ensures r.None? <==> reply.Failure?
    ensures reply.Verdict? ==> r == Some(AddIndicator(reply.isPhishing))
    ensures reply.ErrorReply? ==> r == Some(AddIndicator(false))
  {
    if reply.Failure? then None else Some(AddIndicator(ReportsPhishing(reply)))
  }

  // ---------------------------------------------------------------------
  // Sender check: checkSender, addSenderIcon
  // ---------------------------------------------------------------------

  /** The image `addSenderIcon` inserts before the sender. */
  datatype Icon = Icon(src: string)

  function IconFor(isSafe: bool): (i: Icon)
    ensures i.src == "icons/icon_green.png" <==> isSafe
    ensures i.src == "icons/icon_red.png" <==> !isSafe
  {
    Icon(if isSafe then "icons/icon_green.png" else "icons/icon_red.png")
  }

  /** What the page shows of the sender element. */
  datatype SenderState = SenderState(processed: bool, icons: seq<Icon>)

  /** The effect of one `addSenderIcon(isSafe)` on the sender element. */
  function IconStep(s: SenderState, isSafe: bool): SenderState
  {
    if s.processed then s else SenderState(true, s.icons + [IconFor(isSafe)])
  }

  /** The sender element (`.gD` or `[data-testid="sender-name"]`). */
  class SenderElement {
    var processed: bool    // carries the `sender-processed` class
    var icons: seq<Icon>   // the icons inserted before it

    constructor ()
      ensures !processed && icons == []
    {
      processed := false;
      icons := [];
    }

    function State(): SenderState
      reads this
    {
      SenderState(processed, icons)
    }
  }

  /** `addSenderIcon(isSafe)`, given what the sender query finds: an
      unmarked sender is marked and gets one icon; a marked one is left as
      it is. */
  method AddSenderIcon(sender: SenderElement?, isSafe: bool)
    modifies if sender == null then {} else {sender}
    ensures sender != null ==> sender.State() == IconStep(old(sender.State()), isSafe)
  {
    if sender != null && !sender.processed {
      sender.processed := true;
      sender.icons := sender.icons + [IconFor(isSafe)];
    }
  }

  /** What one `checkSender()` call keeps while its requests are in flight:
      the URLs it submitted and its own `isSafe` flag. */
  class SenderCheck {
    const urls: seq<string>
    var isSafe: bool

    constructor (urls: seq<string>)
      ensures this.urls == urls && isSafe
    {
      this.urls := urls;
      isSafe := true;
    }

    /** The callbacks of one request: a phishing verdict clears `isSafe`,
        every settled reply calls `addSenderIcon(isSafe)`, a failure only
        logs. */
    method OnReply(reply: Reply, sender: SenderElement?)
      modifies this, if sender == null then {} else {sender}
      ensures isSafe == (old(isSafe) && !ReportsPhishing(reply))
      ensures sender != null ==>
        sender.State() == if Settled(reply) then IconStep(old(sender.State()), isSafe) else old(sender.State())
    {
      if reply.Failure? {
        return;
      }
      if ReportsPhishing(reply) {
        isSafe := false;
      }
      AddSenderIcon(sender, isSafe);
    }
  }

  /** `checkSender()`: with no sender element nothing happens; otherwise every
      URL of the whole page is submitted afresh, whatever earlier calls did,
      under a new `isSafe` that starts `true`. */
  method CheckSender(sender: SenderElement?, pageHrefs: seq<string>, pageText: string) returns (check: SenderCheck?)
    ensures sender == null ==> check == null
    ensures sender != null ==> check != null && fresh(check)
    ensures check != null ==> check.urls == Dedup(pageHrefs + TextMatches(pageText)) && check.isSafe
  {
    if sender == null {
      return null;
    }
    var senderUrls := ExtractURLsFromBody(pageHrefs, pageText);
    check := new SenderCheck(senderUrls);
  }

  /** `isSafe` and the sender element after the replies to one call arrive in
      the given order. */
  function AfterReplies(isSafe: bool, s: SenderState, replies: seq<Reply>): (bool, SenderState)
    decreases |replies|
  {
    if replies == [] then (isSafe, s)
    else
      var safe := isSafe && !ReportsPhishing(replies[0]);
      AfterReplies(safe, if Settled(replies[0]) then IconStep(s, safe) else s, replies[1..])
  }

  /** The replies to one `checkSender()` call, delivered in arrival order. */
  method DeliverReplies(check: SenderCheck, sender: SenderElement, replies: seq<Reply>)
    modifies check, sender
    ensures (check.isSafe, sender.State()) == AfterReplies(old(check.isSafe), old(sender.State()), replies)
  {
    for i := 0 to |replies|
      invariant AfterReplies(check.isSafe, sender.State(), replies[i..]) ==
                AfterReplies(old(check.isSafe), old(sender.State()), replies)
    {
      assert replies[i..][1..] == replies[i + 1..];
      check.OnReply(replies[i], sender);
    }
  }

  /** `isSafe` only ever goes from `true` to `false`, and only on a reply that
      reports phishing. */
  lemma {:induction false} IsSafeOnlyFalls(isSafe: bool, s: SenderState, replies: seq<Reply>)
    ensures AfterReplies(isSafe, s, replies).0 <==>
      isSafe && forall i :: 0 <= i < |replies| ==> !ReportsPhishing(replies[i])
    decreases |replies|
  {
    if replies != [] {
      var safe := isSafe && !ReportsPhishing(replies[0]);
      IsSafeOnlyFalls(safe, if Settled(replies[0]) then IconStep(s, safe) else s, replies[1..]);
      assert forall i :: 1 <= i < |replies| ==> replies[1..][i - 1] == replies[i];
    }
  }

  /** Once the sender is marked, no reply changes it. */
  lemma {:induction false} MarkedSenderIsFinal(isSafe: bool, s: SenderState, replies: seq<Reply>)
    requires s.processed
    ensures AfterReplies(isSafe, s, replies).1 == s
    decreases |replies|
  {
    if replies != [] {
      MarkedSenderIsFinal(isSafe && !ReportsPhishing(replies[0]), s, replies[1..]);
    }
  }

  /** The position of the first reply whose callback runs, or `|replies|`. */
  function FirstSettled(replies: seq<Reply>): (k: nat)
    ensures k <= |replies|
    ensures k < |replies| ==> Settled(replies[k])
    ensures forall i :: 0 <= i < k ==> replies[i].Failure?
  {
    if replies == [] || Settled(replies[0]) then 0 else 1 + FirstSettled(replies[1..])
  }

  /** Only the first settled reply affects an unmarked sender: it gets one
      icon, green unless that very reply reports phishing (or `isSafe` was
      already false); with no settled reply it is left as it was. */
  lemma {:induction false} FirstSettledReplyDecidesIcon(isSafe: bool, s: SenderState, replies: seq<Reply>)
    requires !s.processed
    ensures var k := FirstSettled(replies);
      AfterReplies(isSafe, s, replies).1 ==
        if k == |replies| then s
        else SenderState(true, s.icons + [IconFor(isSafe && !ReportsPhishing(replies[k]))])
    decreases |replies|
  {
    if replies != [] {
      var safe := isSafe && !ReportsPhishing(replies[0]);
      if Settled(replies[0]) {
        MarkedSenderIsFinal(safe, IconStep(s, safe), replies[1..]);
      } else {
        FirstSettledReplyDecidesIcon(safe, s, replies[1..]);
      }
    }
  }

  /** A safe first reply followed by a phishing one leaves `isSafe` false
      while the sender keeps its green icon. */
  lemma GreenIconSurvivesLaterPhishingReply()
    ensures AfterReplies(true, SenderState(false, []), [Verdict(false), Verdict(true)]) ==
      (false, SenderState(true, [IconFor(true)]))
  {
    var rs, s0 := [Verdict(false), Verdict(true)], SenderState(false, []);
    var s1 := SenderState(true, [IconFor(true)]);
    assert [] + [IconFor(true)] == [IconFor(true)];
    assert IconStep(s0, true) == s1;
    assert rs[1..] == [Verdict(true)] && rs[1..][1..] == [];
    assert AfterReplies(false, s1, []) == (false, s1);
    assert AfterReplies(false, s1, [Verdict(true)]) == (false, s1);
    assert AfterReplies(true, s0, rs) == AfterReplies(true, s1, rs[1..]);
  }

  /** A reply without `is_phishing` (an error body of the service) reads as
      safe: the link gets a "Safe link" check mark and the sender may get a
      green icon. */
  lemma ErrorReplyReadsAsSafe()
    ensures CheckUrlIndicator(ErrorReply) == Some(Indicator(CheckMark, "green", "Safe link"))
    ensures AfterReplies(true, SenderState(false, []), [ErrorReply]) == (true, SenderState(true, [IconFor(true)]))
  {
    var s1 := SenderState(true, [IconFor(true)]);
    assert [] + [IconFor(true)] == [IconFor(true)];
    assert IconStep(SenderState(false, []), true) == s1;
    assert [ErrorReply][1..] == [];
    assert AfterReplies(true, s1, []) == (true, s1);
  }
}
