/** The plain-text URL search of the content script: all matches of the
    JavaScript regular expression /(https?:\/\/[^\s]+)/g in a text, in the
    order `String.prototype.match` returns them. */
module TextScan {
  import opened Strings

  /** `\s` of ECMAScript regular expressions: the WhiteSpace and
      LineTerminator code points. */
  predicate IsJsSpace(c: char)
  {
    var n := c as int;
    n == 0x09 || n == 0x0A || n == 0x0B || n == 0x0C || n == 0x0D || n == 0x20 ||
    n == 0xA0 || n == 0x1680 || (0x2000 <= n <= 0x200A) || n == 0x2028 || n == 0x2029 ||
    n == 0x202F || n == 0x205F || n == 0x3000 || n == 0xFEFF
  }

  /** A match of the expression, as the positions `start..end` of the text it spans. */
  datatype Span = Span(start: nat, end: nat)

  /** The length of the `https?://` part of a match beginning at `i`, or 0 when
      no match begins there: the scheme must be followed by at least one
      character that is not white space. */
  function PrefixAt(t: string, i: nat): (k: nat)
    requires i <= |t|
    ensures k == 0 || k == 7 || k == 8
    ensures k > 0 ==> i + k < |t| && !IsJsSpace(t[i + k])
  {
    if StartsWith(t[i..], "https://") && i + 8 < |t| && !IsJsSpace(t[i + 8]) then 8
    else if StartsWith(t[i..], "http://") && i + 7 < |t| && !IsJsSpace(t[i + 7]) then 7
    else 0
  }

  /** A match begins at `i` exactly when `https://` or `http://` starts there
      and is followed by a character that is not white space; `PrefixAt` is
      the length of that scheme. */
  lemma PrefixAtIff(t: string, i: nat)
    requires i <= |t|
    ensures var k := PrefixAt(t, i);
      && (k > 0 ==> t[i..i + k] == (if k == 8 then "https://" else "http://"))
      && (k == 8 <==> StartsWith(t[i..], "https://") && i + 8 < |t| && !IsJsSpace(t[i + 8]))
      && (k == 7 <==> StartsWith(t[i..], "http://") && i + 7 < |t| && !IsJsSpace(t[i + 7]))
  {
    var k := PrefixAt(t, i);
    if k > 0 {
      assert t[i..][..k] == t[i..i + k];
    }
    assert StartsWith(t[i..], "http://") ==> t[i..][4] == ':';
  }

  /** The end of the greedy `[^\s]+` run that starts at `j`. */
  function RunEnd(t: string, j: nat): (e: nat)
    requires j <= |t|
    ensures j <= e <= |t|
    ensures e < |t| ==> IsJsSpace(t[e])
    ensures forall k :: j <= k < e ==> !IsJsSpace(t[k])
    decreases |t| - j
  {
    if j == |t| || IsJsSpace(t[j]) then j else RunEnd(t, j + 1)
  }

  /** The matches found by a global search that resumes at `i`: where a match
      begins, it runs to the next white space and the search resumes after it;
      elsewhere the search moves on by one position. */
  function SpansFrom(t: string, i: nat): (sp: seq<Span>)
    requires i <= |t|
    decreases |t| - i
  {
    if i == |t| then []
    else if PrefixAt(t, i) > 0 then
      var e := RunEnd(t, i + PrefixAt(t, i));
      [Span(i, e)] + SpansFrom(t, e)
    else SpansFrom(t, i + 1)
  }

  predicate InBounds(t: string, sp: seq<Span>)
  {
    forall k :: 0 <= k < |sp| ==> sp[k].start <= sp[k].end <= |t|
  }

  /** Every span lies in the text from position `i` on. */
  predicate Within(t: string, i: nat, sp: seq<Span>)
  {
    forall k :: 0 <= k < |sp| ==> i <= sp[k].start < sp[k].end <= |t|
  }

  lemma {:induction false} SpansWithin(t: string, i: nat)
    requires i <= |t|
    ensures Within(t, i, SpansFrom(t, i)) && InBounds(t, SpansFrom(t, i))
    decreases |t| - i
  {
    if i < |t| {
      if PrefixAt(t, i) > 0 {
        var e := RunEnd(t, i + PrefixAt(t, i));
        SpansWithin(t, e);
        var rest := SpansFrom(t, e);
        assert SpansFrom(t, i) == [Span(i, e)] + rest;
        assert forall k :: 1 <= k < |rest| + 1 ==> ([Span(i, e)] + rest)[k] == rest[k - 1];
      } else {
        SpansWithin(t, i + 1);
      }
    }
  }

  function Slices(t: string, sp: seq<Span>): (r: seq<string>)
    requires InBounds(t, sp)
    ensures |r| == |sp|
  {
    seq(|sp|, k requires 0 <= k < |sp| => t[sp[k].start..sp[k].end])
  }

  /** `text.match(regex)`, with no match giving the empty sequence. */
  function TextMatches(t: string): seq<string>
  {
    SpansWithin(t, 0);
    Slices(t, SpansFrom(t, 0))
  }

  /** Every span is a match: an `https?://` prefix, at least one more
      character, and a run of non-white-space as long as it can be. */
  predicate IsMatchSpan(t: string, s: Span)
  {
    s.start < |t| && PrefixAt(t, s.start) > 0 && s.end == RunEnd(t, s.start + PrefixAt(t, s.start))
  }

  lemma {:induction false} SpansAreMatches(t: string, i: nat)
    requires i <= |t|
    ensures forall k :: 0 <= k < |SpansFrom(t, i)| ==> IsMatchSpan(t, SpansFrom(t, i)[k])
    decreases |t| - i
  {
    if i < |t| {
      if PrefixAt(t, i) > 0 {
        SpansAreMatches(t, RunEnd(t, i + PrefixAt(t, i)));
      } else {
        SpansAreMatches(t, i + 1);
      }
    }
  }

  /** Matches do not overlap and come in text order; each one ends at white
      space or at the end of the text. */
  lemma {:induction false} SpansAreOrdered(t: string, i: nat)
    requires i <= |t|
    ensures InBounds(t, SpansFrom(t, i))
    ensures forall k :: 0 <= k < |SpansFrom(t, i)| - 1 ==> SpansFrom(t, i)[k].end <= SpansFrom(t, i)[k + 1].start
    ensures forall k :: 0 <= k < |SpansFrom(t, i)| ==>
      SpansFrom(t, i)[k].end == |t| || IsJsSpace(t[SpansFrom(t, i)[k].end])
    decreases |t| - i
  {
    SpansWithin(t, i);
    if i < |t| {
      if PrefixAt(t, i) > 0 {
        var e := RunEnd(t, i + PrefixAt(t, i));
        SpansAreOrdered(t, e);
        SpansWithin(t, e);
      } else {
        SpansAreOrdered(t, i + 1);
      }
    }
  }

  /** Position `p` lies inside one of the spans. */
  predicate Covers(sp: seq<Span>, p: nat)
  {
    exists k :: 0 <= k < |sp| && sp[k].start <= p < sp[k].end
  }

  /** No URL is missed: every position from `i` on where a match could begin
      lies inside a reported match (an `http://` inside a longer match is
      covered by it rather than reported on its own). */
  lemma {:induction false} SpansCoverEveryMatchStart(t: string, i: nat, p: nat)
    requires i <= p < |t| && PrefixAt(t, p) > 0
    ensures Covers(SpansFrom(t, i), p)
    decreases |t| - i
  {
    if PrefixAt(t, i) > 0 {
      var e := RunEnd(t, i + PrefixAt(t, i));
      var rest := SpansFrom(t, e);
      assert SpansFrom(t, i) == [Span(i, e)] + rest;
      if e <= p {
        SpansCoverEveryMatchStart(t, e, p);
        CoversCons(Span(i, e), rest, p);
      } else {
        assert ([Span(i, e)] + rest)[0] == Span(i, e);
      }
    } else {
      assert p != i;
      SpansCoverEveryMatchStart(t, i + 1, p);
    }
  }

  /** Stated on the text itself: wherever `http://` or `https://` is followed
      by a character that is not white space, that position lies inside a
      reported match. */
  lemma EveryUrlStartIsCovered(t: string, p: nat)
    requires p < |t|
    requires (StartsWith(t[p..], "http://") && p + 7 < |t| && !IsJsSpace(t[p + 7])) ||
             (StartsWith(t[p..], "https://") && p + 8 < |t| && !IsJsSpace(t[p + 8]))
    ensures Covers(SpansFrom(t, 0), p)
  {
    PrefixAtIff(t, p);
    SpansCoverEveryMatchStart(t, 0, p);
  }

  lemma CoversCons(s: Span, rest: seq<Span>, p: nat)
    requires Covers(rest, p)
    ensures Covers([s] + rest, p)
  {
    var k :| 0 <= k < |rest| && rest[k].start <= p < rest[k].end;
    assert ([s] + rest)[k + 1] == rest[k];
  }

  /** A URL as the expression finds it: `http://` or `https://`, at least one
      more character, and no white space. */
  predicate IsTextUrl(u: string)
  {
    ((StartsWith(u, "http://") && |u| > 7) || (StartsWith(u, "https://") && |u| > 8)) &&
    forall j :: 0 <= j < |u| ==> !IsJsSpace(u[j])
  }

  lemma MatchSpanIsTextUrl(t: string, s: Span)
    requires IsMatchSpan(t, s)
    ensures s.start <= s.end <= |t| && IsTextUrl(t[s.start..s.end])
  {
    var n := PrefixAt(t, s.start);
    var u := t[s.start..s.end];
    var scheme := if n == 8 then "https://" else "http://";
    assert StartsWith(t[s.start..], scheme);
    assert t[s.start..][..n] == t[s.start..s.start + n] == u[..n];
    assert u[..n] == scheme;
    forall j | 0 <= j < |u| ensures !IsJsSpace(u[j]) {
      assert u[j] == t[s.start + j];
      if j < n {
        assert u[j] == scheme[j];
      } else {
        assert s.start + n <= s.start + j < s.end == RunEnd(t, s.start + n);
      }
    }
  }

  /** Every reported URL starts with `http://` or `https://`, has at least one
      character after `://`, and contains no white space. */
  lemma MatchesAreTextUrls(t: string)
    ensures forall u :: u in TextMatches(t) ==> IsTextUrl(u)
  {
    var sp := SpansFrom(t, 0);
    SpansAreMatches(t, 0);
    forall k | 0 <= k < |sp| ensures IsTextUrl(TextMatches(t)[k]) {
      MatchSpanIsTextUrl(t, sp[k]);
    }
  }

  /** The scanner the engine runs for `text.match(regex)`: left to right,
      greedy, resuming after each match. */
  method MatchAll(t: string) returns (ms: seq<string>)
    ensures ms == TextMatches(t)
  {
    ms := [];
    var i := 0;
    ghost var done: seq<Span> := [];
    while i < |t|
      invariant 0 <= i <= |t|
      invariant InBounds(t, done)
      invariant done + SpansFrom(t, i) == SpansFrom(t, 0)
      invariant ms == Slices(t, done)
      decreases |t| - i
    {
      var k := PrefixAt(t, i);
      if k > 0 {
        var e := SkipRun(t, i + k);
        SpansAtMatch(t, i, e);
        ConsAssoc(done, Span(i, e), SpansFrom(t, e));
        SlicesSnoc(t, done, Span(i, e));
        ms := ms + [t[i..e]];
        done := done + [Span(i, e)];
        i := e;
      } else {
        assert SpansFrom(t, i) == SpansFrom(t, i + 1);
        i := i + 1;
      }
    }
    assert done == SpansFrom(t, 0);
  }

  /** The inner loop of the scanner: past the `https?://` prefix, consume
      characters up to white space or the end of the text. */
  method SkipRun(t: string, j: nat) returns (e: nat)
    requires j <= |t|
    ensures e == RunEnd(t, j)
  {
    e := j;
    while e < |t| && !IsJsSpace(t[e])
      invariant j <= e <= |t|
      invariant forall m :: j <= m < e ==> !IsJsSpace(t[m])
      decreases |t| - e
    {
      e := e + 1;
    }
    RunEndUnique(t, j, e);
  }

  lemma ConsAssoc(done: seq<Span>, s: Span, rest: seq<Span>)
    ensures (done + [s]) + rest == done + ([s] + rest)
  {
  }

  /** Where a match begins, the search reports it and resumes after it. */
  lemma SpansAtMatch(t: string, i: nat, e: nat)
    requires i < |t| && PrefixAt(t, i) > 0 && e == RunEnd(t, i + PrefixAt(t, i))
    ensures SpansFrom(t, i) == [Span(i, e)] + SpansFrom(t, e)
  {
  }

  lemma SlicesSnoc(t: string, done: seq<Span>, s: Span)
    requires InBounds(t, done) && s.start <= s.end <= |t|
    ensures InBounds(t, done + [s])
    ensures Slices(t, done + [s]) == Slices(t, done) + [t[s.start..s.end]]
  {
    var d' := done + [s];
    var a, b := Slices(t, d'), Slices(t, done) + [t[s.start..s.end]];
    assert |a| == |b|;
    forall k | 0 <= k < |a| ensures a[k] == b[k] {
      if k < |done| { assert d'[k] == done[k]; }
    }
  }

  lemma RunEndUnique(t: string, j: nat, e: nat)
    requires j <= e <= |t|
    requires e < |t| ==> IsJsSpace(t[e])
    requires forall k :: j <= k < e ==> !IsJsSpace(t[k])
    ensures e == RunEnd(t, j)
  {
  }
}
