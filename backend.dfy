/** The `/predict` endpoint of the backend, up to the point where the trained
    classifier is consulted: the empty check, scheme normalisation, the
    lookup domain and its base domain, and the trusted-domain short cut. */
module Backend {
  import opened Wrappers
  import opened Strings
  import opened UrlParse
  import opened UrlFeatures

  /** The JSON body of the request; `url` is its "url" member, when present. */
  datatype Request = Request(url: Option<string>)

  datatype Response =
      /** Status 400 with an `error` member. */
    | BadRequest(error: string)
      /** Status 200 with a verdict the backend decides on its own. */
    | Verdict(url: string, isPhishing: bool, confidence: string, probability: real, trustedDomain: bool)
      /** The classifier is asked about these features of `url`. */
    | Consult(url: string, features: Features)

  function Status(r: Response): nat
  {
    if r.BadRequest? then 400 else 200
  }

  predicate HasHttpScheme(url: string)
  {
    StartsWith(url, "http://") || StartsWith(url, "https://")
  }

  /** A URL without an `http://` or `https://` prefix gets `https://`. */
  function EnsureScheme(url: string): (r: string)
    ensures HasHttpScheme(r)
    ensures HasHttpScheme(url) ==> r == url
    ensures !HasHttpScheme(url) ==> r == "https://" + url
    ensures EndsWith(r, url)
  {
    if HasHttpScheme(url) then url else "https://" + url
  }

  /** Normalising twice is normalising once. */
  lemma EnsureSchemeIdempotent(url: string)
    ensures EnsureScheme(EnsureScheme(url)) == EnsureScheme(url)
  {
  }

  /** The host looked up in the trusted set: the lower-cased network location
      with one leading `www.` removed. Any `:port` stays. */
  function LookupDomain(url: string): (d: string)
    ensures forall i :: 0 <= i < |d| ==> !IsUpperAscii(d[i])
    ensures var n := Lower(Parse(url).netloc);
      EndsWith(n, d) && (d == n <==> !StartsWith(n, "www.")) && (d != n ==> "www." + d == n)
  {
    var n := Lower(Parse(url).netloc);
    if StartsWith(n, "www.") then
      assert n == n[..4] + n[4..];
      n[4..]
    else n
  }

  /** The last two labels of a domain with more than two, the whole domain otherwise. */
  function BaseDomain(domain: string): (b: string)
    ensures EndsWith(domain, b)
    ensures Count(b, '.') <= 1
    ensures Count(domain, '.') <= 1 ==> b == domain
    ensures Count(domain, '.') > 1 ==> Count(b, '.') == 1 && |b| < |domain| && domain[|domain| - |b| - 1] == '.'
  {
    var labels := Split(domain, '.');
    SplitCount(domain, '.');
    if |labels| > 2 then
      var b := Join(labels[|labels| - 2..], '.');
      BaseDomainOfManyLabels(domain);
      b
    else
      domain
  }

  lemma BaseDomainOfManyLabels(domain: string)
    requires |Split(domain, '.')| > 2
    ensures var labels := Split(domain, '.');
      var b := Join(labels[|labels| - 2..], '.');
      EndsWith(domain, b) && Count(b, '.') == 1 && |b| < |domain| && domain[|domain| - |b| - 1] == '.'
  {
    var labels := Split(domain, '.');
    var k := |labels| - 2;
    var head := Join(labels[..k], '.');
    var b := Join(labels[k..], '.');
    JoinSplit(domain, '.');
    JoinTail(labels, '.', k);
    assert domain == head + ['.'] + b;
    assert domain[|domain| - |b|..] == b;
    assert domain[|domain| - |b| - 1] == (head + ['.'] + b)[|head|];
    SplitPartsHaveNoSeparator(domain, '.');
    var x, y := labels[k], labels[k + 1];
    assert labels[k..][1..] == [y];
    assert b == x + ['.'] + y;
    CountAbsent(x, '.');
    CountAbsent(y, '.');
    CountAppend(x + ['.'], y, '.');
    CountAppend(x, ['.'], '.');
  }

  lemma {:induction false} CountAbsent(s: string, c: char)
    requires c !in s
    ensures Count(s, c) == 0
  {
    if s != [] {
      assert forall d :: d in s[1..] ==> d in s;
      CountAbsent(s[1..], c);
    }
  }

  const NoUrl: string := "No URL provided"
  const TrustedProbability: real := 0.05

  /** `predict()` for a request body, against the trusted domains of the loaded model. */
  function Predict(req: Request, trusted: set<string>): (r: Response)
    ensures r.BadRequest? <==> req.url.None? || req.url.value == []
    ensures r.BadRequest? ==> r.error == NoUrl && Status(r) == 400
    ensures !r.BadRequest? ==> r.url == EnsureScheme(req.url.value) && HasHttpScheme(r.url) && Status(r) == 200
    ensures r.Verdict? <==> !r.BadRequest? && BaseDomain(LookupDomain(r.url)) in trusted
    ensures r.Verdict? ==>
      !r.isPhishing && r.confidence == "high" && r.probability == TrustedProbability && r.trustedDomain
    ensures r.Consult? ==> r.features == ExtractUrlFeatures(r.url)
  {
    if req.url.None? || req.url.value == [] then BadRequest(NoUrl)
    else
      var url := EnsureScheme(req.url.value);
      if BaseDomain(LookupDomain(url)) in trusted then Verdict(url, false, "high", TrustedProbability, true)
      else Consult(url, ExtractUrlFeatures(url))
  }

  /** After normalisation the scheme is `https` exactly when the URL was sent
      with `https://` or with neither prefix. */
  lemma NormalisedScheme(u: string)
    ensures Parse(EnsureScheme(u)).scheme == if StartsWith(u, "https://") || !HasHttpScheme(u) then "https" else "http"
  {
    var url := EnsureScheme(u);
    if StartsWith(url, "https://") {
      assert "https://" + url[8..] == url;
      HttpUrlParts("https://", url[8..]);
    } else {
      assert "http://" + url[7..] == url;
      HttpUrlParts("http://", url[7..]);
    }
    if !HasHttpScheme(u) {
      assert url[..8] == "https://";
    }
  }

  /** A URL that reaches the classifier has been normalised, so `uses_https`
      is 1 exactly when it was sent with `https://` or with neither
      `http://` nor `https://`. */
  lemma ConsultedUsesHttps(req: Request, trusted: set<string>)
    ensures var r := Predict(req, trusted);
      r.Consult? ==> (r.features.usesHttps == 1 <==> StartsWith(req.url.value, "https://") || !HasHttpScheme(req.url.value))
  {
    if req.url.Some? {
      NormalisedScheme(req.url.value);
    }
  }
}
