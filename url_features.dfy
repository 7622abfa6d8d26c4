/** The integer and 0/1 features that the backend computes from a URL before
    consulting its classifier. */
module UrlFeatures {
  import opened Strings
  import opened UrlParse

  /** The integer part of the feature dictionary, one field per key. */
  datatype Features = Features(
    urlLength: nat,
    domainHasIp: nat,
    numSpecialChars: nat,
    numDigits: nat,
    domainLength: nat,
    subdomainLength: nat,
    numSubdomains: nat,
    isCommonTld: nat,
    typosquatting: nat,
    hasBankingKw: nat,
    hasHex: nat,
    hasAtSymbol: nat,
    usesHttps: nat,
    pathDepth: nat,
    consecutiveChars: nat)

  /** Python's `int(b)` for a boolean. */
  function Bit(b: bool): (n: nat)
    ensures n <= 1
    ensures n == 1 <==> b
  {
    if b then 1 else 0
  }

  const SpecialChars: string := "/:?&%=.-_~@"
  const CommonTlds: seq<string> := [".com", ".org", ".net", ".gov", ".edu", ".io"]
  const TyposquatTerms: seq<string> := ["paypa1", "g00gle", "amaz0n", "faceb00k", "y0utube"]
  const BankingKeywords: seq<string> := ["login", "bank", "account", "secure", "verify"]

  predicate IsSpecial(c: char) { c in SpecialChars }

  /** `any(t in s for t in terms)`. */
  predicate ContainsAny(s: string, terms: seq<string>)
  {
    exists t :: t in terms && Contains(s, t)
  }

  /** `s.endswith(suffixes)` with a tuple of suffixes. */
  predicate EndsWithAny(s: string, suffixes: seq<string>)
  {
    exists t :: t in suffixes && EndsWith(s, t)
  }

  /** The length of the run of ASCII digits at the start of `s`. */
  function DigitRun(s: string): (k: nat)
    ensures k <= |s|
    ensures forall i :: 0 <= i < k ==> IsAsciiDigit(s[i])
    ensures k < |s| ==> !IsAsciiDigit(s[k])
  {
    if s == [] || !IsAsciiDigit(s[0]) then 0 else 1 + DigitRun(s[1..])
  }

  /** `s` is matched whole by `\d+(\.\d+)*` with `n` digit groups. */
  predicate DigitGroups(s: string, n: nat)
  {
    var k := DigitRun(s);
    k > 0 && if n <= 1 then k == |s| else k < |s| && s[k] == '.' && DigitGroups(s[k + 1..], n - 1)
  }

  /** `re.match(r'^\d+\.\d+\.\d+\.\d+$', d)`: Python's `$` also matches
      before a newline that ends the string. */
  predicate MatchesDottedQuad(d: string)
  {
    DigitGroups(d, 4) || (d != [] && d[|d| - 1] == '\n' && DigitGroups(d[..|d| - 1], 4))
  }

  /** `%[0-9a-fA-F]{2}` matches at the start of `u`. */
  predicate HexEscapeStart(u: string)
  {
    |u| >= 3 && u[0] == '%' && IsHexDigit(u[1]) && IsHexDigit(u[2])
  }

  /** `([a-zA-Z])\1{2}` matches at the start of `u`. */
  predicate TripleLetterStart(u: string)
  {
    |u| >= 3 && IsAsciiLetter(u[0]) && u[1] == u[0] && u[2] == u[0]
  }

  /** The host the features describe: the network location with any `:port` dropped. */
  function FeatureDomain(url: string): string
  {
    Split(Parse(url).netloc, ':')[0]
  }

  /** `extract_url_features(url)` without the floating-point entries. */
  function ExtractUrlFeatures(url: string): (f: Features)
    ensures f.urlLength == |url| && f.domainLength == |FeatureDomain(url)|
  {
    var parsed := Parse(url);
    var domain := FeatureDomain(url);
    var labels := Split(domain, '.');
    Features(
      urlLength := |url|,
      domainHasIp := Bit(MatchesDottedQuad(domain)),
      numSpecialChars := CountWhere(url, IsSpecial),
      numDigits := CountWhere(url, IsAsciiDigit),
      domainLength := |domain|,
      subdomainLength := |labels[0]|,
      numSubdomains := |labels| - 1,
      isCommonTld := Bit(EndsWithAny(domain, CommonTlds)),
      typosquatting := Bit(ContainsAny(Lower(domain), TyposquatTerms)),
      hasBankingKw := Bit(ContainsAny(Lower(url), BankingKeywords)),
      hasHex := Bit(Anywhere(url, HexEscapeStart)),
      hasAtSymbol := Bit('@' in url),
      usesHttps := Bit(parsed.scheme == "https"),
      pathDepth := Count(parsed.path, '/'),
      consecutiveChars := Bit(Anywhere(domain, TripleLetterStart)))
  }

  /** A dotted quad, read label by label: splitting at `.` gives exactly four
      non-empty runs of digits. */
  predicate AllDigits(s: string)
  {
    s != [] && forall i :: 0 <= i < |s| ==> IsAsciiDigit(s[i])
  }

  predicate DigitLabels(s: string, n: nat)
  {
    |Split(s, '.')| == n && forall k :: 0 <= k < n ==> AllDigits(Split(s, '.')[k])
  }

  predicate IsDottedQuad(d: string)
  {
    DigitLabels(d, 4) || (d != [] && d[|d| - 1] == '\n' && DigitLabels(d[..|d| - 1], 4))
  }

  /** The left-to-right matcher agrees with the label-by-label reading. */
  lemma {:induction false} DigitGroupsIff(s: string, n: nat)
    requires n >= 1
    ensures DigitGroups(s, n) <==> DigitLabels(s, n)
    decreases n
  {
    var f := FirstOf(s, 0, {'.'});
    SplitAtFirst(s, '.');
    if f == |s| {
      DigitGroupsWithoutDot(s, n);
    } else {
      if n > 1 {
        DigitGroupsIff(s[f + 1..], n - 1);
      }
      DigitGroupsAtDot(s, n, f);
    }
  }

  lemma DigitGroupsWithoutDot(s: string, n: nat)
    requires n >= 1
    requires FirstOf(s, 0, {'.'}) == |s| && Split(s, '.') == [s]
    ensures DigitGroups(s, n) <==> DigitLabels(s, n)
  {
    var k := DigitRun(s);
    if DigitLabels(s, n) {
      assert Split(s, '.')[0] == s;
      assert AllDigits(s);
    }
    if AllDigits(s) {
      assert k == |s|;
    }
    if DigitGroups(s, n) {
      assert n == 1 && k == |s|;
      assert AllDigits(s);
    }
  }

  lemma DigitGroupsAtDot(s: string, n: nat, f: nat)
    requires n >= 1 && f < |s| && f == FirstOf(s, 0, {'.'})
    requires Split(s, '.') == [s[..f]] + Split(s[f + 1..], '.')
    requires n > 1 ==> (DigitGroups(s[f + 1..], n - 1) <==> DigitLabels(s[f + 1..], n - 1))
    ensures DigitGroups(s, n) <==> DigitLabels(s, n)
  {
    var k := DigitRun(s);
    var parts := Split(s, '.');
    var rest := Split(s[f + 1..], '.');
    assert forall j :: 1 <= j < |parts| ==> parts[j] == rest[j - 1];
    if DigitGroups(s, n) {
      assert n > 1 && k == f;
      assert s[..k] == parts[0];
      assert AllDigits(parts[0]);
    }
    if DigitLabels(s, n) {
      assert AllDigits(parts[0]);
      assert parts[0] == s[..f];
      assert forall i :: 0 <= i < f ==> s[i] == s[..f][i];
      assert k == f && n > 1;
      forall j | 0 <= j < n - 1 ensures AllDigits(rest[j]) {
        assert rest[j] == parts[j + 1];
      }
      assert DigitLabels(s[f + 1..], n - 1);
    }
  }

  lemma DottedQuadIff(d: string)
    ensures MatchesDottedQuad(d) <==> IsDottedQuad(d)
  {
    DigitGroupsIff(d, 4);
    if d != [] {
      DigitGroupsIff(d[..|d| - 1], 4);
    }
  }

  /** `domain_has_ip` is 1 exactly when the feature domain is a dotted quad. */
  lemma DomainHasIpIff(url: string)
    ensures ExtractUrlFeatures(url).domainHasIp == 1 <==> IsDottedQuad(FeatureDomain(url))
  {
    DottedQuadIff(FeatureDomain(url));
  }

  /** `is_common_tld` is 1 exactly when the domain ends, case-sensitively, with a listed suffix. */
  lemma IsCommonTldIff(url: string)
    ensures ExtractUrlFeatures(url).isCommonTld == 1 <==>
      exists t :: t in CommonTlds && EndsWith(FeatureDomain(url), t)
  {
  }

  lemma ContainsAnyIff(s: string, terms: seq<string>)
    ensures ContainsAny(s, terms) <==> exists t, i: nat :: t in terms && OccursAt(s, t, i)
  {
    forall t | t in terms ensures Contains(s, t) <==> exists i: nat :: i <= |s| && OccursAt(s, t, i) {
      ContainsIff(s, t);
    }
  }

  /** `typosquatting` is 1 exactly when a listed look-alike occurs in the lower-cased domain. */
  lemma TyposquattingIff(url: string)
    ensures ExtractUrlFeatures(url).typosquatting == 1 <==>
      exists t, i: nat :: t in TyposquatTerms && OccursAt(Lower(FeatureDomain(url)), t, i)
  {
    ContainsAnyIff(Lower(FeatureDomain(url)), TyposquatTerms);
  }

  /** `has_banking_kw` is 1 exactly when a listed keyword occurs in the lower-cased URL. */
  lemma HasBankingKwIff(url: string)
    ensures ExtractUrlFeatures(url).hasBankingKw == 1 <==>
      exists t, i: nat :: t in BankingKeywords && OccursAt(Lower(url), t, i)
  {
    ContainsAnyIff(Lower(url), BankingKeywords);
  }

  /** A `%` followed by two hexadecimal digits at position `i`. */
  predicate HexEscapeAt(s: string, i: nat)
  {
    i + 2 < |s| && s[i] == '%' && IsHexDigit(s[i + 1]) && IsHexDigit(s[i + 2])
  }

  /** `has_hex` is 1 exactly when some position of the URL holds a `%xx` escape. */
  lemma HasHexIff(url: string)
    ensures ExtractUrlFeatures(url).hasHex == 1 <==> exists i: nat :: HexEscapeAt(url, i)
  {
    AnywhereIff(url, HexEscapeStart);
    forall i: nat | i <= |url| ensures HexEscapeStart(url[i..]) <==> HexEscapeAt(url, i) { }
  }

  /** `has_at_symbol` is 1 exactly when the URL contains `@`. */
  lemma HasAtSymbolIff(url: string)
    ensures ExtractUrlFeatures(url).hasAtSymbol == 1 <==> exists i :: 0 <= i < |url| && url[i] == '@'
  {
  }

  /** `uses_https` is 1 exactly when the URL has a scheme spelt `https` in any case. */
  lemma UsesHttpsIff(url: string)
    ensures ExtractUrlFeatures(url).usesHttps == 1 <==> HasScheme(url) && Lower(url[..ColonAt(url)]) == "https"
  {
  }

  /** Three equal ASCII letters at position `i`. */
  predicate TripleLetterAt(s: string, i: nat)
  {
    i + 2 < |s| && IsAsciiLetter(s[i]) && s[i + 1] == s[i] && s[i + 2] == s[i]
  }

  /** `consecutive_chars` is 1 exactly when some letter appears three times in
      a row in the domain, case-sensitively. */
  lemma ConsecutiveCharsIff(url: string)
    ensures ExtractUrlFeatures(url).consecutiveChars == 1 <==> exists i: nat :: TripleLetterAt(FeatureDomain(url), i)
  {
    var d := FeatureDomain(url);
    AnywhereIff(d, TripleLetterStart);
    forall i: nat | i <= |d| ensures TripleLetterStart(d[i..]) <==> TripleLetterAt(d, i) { }
  }

  /** Every flag is 0 or 1. */
  lemma FlagsAreBits(url: string)
    ensures var f := ExtractUrlFeatures(url);
      f.domainHasIp <= 1 && f.isCommonTld <= 1 && f.typosquatting <= 1 && f.hasBankingKw <= 1 &&
      f.hasHex <= 1 && f.hasAtSymbol <= 1 && f.usesHttps <= 1 && f.consecutiveChars <= 1
  {
  }

  /** No character is both special and a digit, so the two counts fit in the URL's length. */
  lemma SpecialCharsAndDigitsFit(url: string)
    ensures ExtractUrlFeatures(url).numSpecialChars + ExtractUrlFeatures(url).numDigits <= ExtractUrlFeatures(url).urlLength
  {
    CountWhereDisjoint(url, IsSpecial, IsAsciiDigit);
  }

  /** The first label is a prefix of the feature domain, which is a prefix of
      the network location, which is a slice of the URL. */
  lemma DomainLengthsNest(url: string)
    ensures var f := ExtractUrlFeatures(url);
      f.subdomainLength <= f.domainLength <= f.urlLength
  {
    SplitHeadIsPrefix(Parse(url).netloc, ':');
    SplitHeadIsPrefix(FeatureDomain(url), '.');
  }

  /** Every `.` of the domain starts one more label. */
  lemma NumSubdomainsCountsDots(url: string)
    ensures ExtractUrlFeatures(url).numSubdomains == Count(FeatureDomain(url), '.')
  {
    SplitCount(FeatureDomain(url), '.');
  }

  /** Every `/` of the path is a `/` of the URL, and `/` is a special character. */
  lemma PathDepthBounded(url: string)
    ensures ExtractUrlFeatures(url).pathDepth <= Count(url, '/') <= ExtractUrlFeatures(url).numSpecialChars
  {
    ParseSlices(url);
    CountSlice(url, NetlocEnd(url), PathEnd(url), '/');
    CountBelowCountWhere(url, '/', IsSpecial);
  }

  /** An `@` in the URL is a special character. */
  lemma AtSymbolIsSpecial(url: string)
    ensures ExtractUrlFeatures(url).hasAtSymbol == 1 ==> ExtractUrlFeatures(url).numSpecialChars >= 1
  {
    if '@' in url {
      AtIsSpecial(url);
    }
  }

  /** A dotted-quad host has exactly three dots. */
  lemma DottedQuadHasThreeDots(url: string)
    ensures ExtractUrlFeatures(url).domainHasIp == 1 ==> ExtractUrlFeatures(url).numSubdomains == 3
  {
    var d := FeatureDomain(url);
    DottedQuadIff(d);
    if IsDottedQuad(d) && !DigitLabels(d, 4) {
      var d' := d[..|d| - 1];
      assert d == d' + ['\n'];
      SplitCount(d', '.');
      SplitCount(d, '.');
      CountAppend(d', ['\n'], '.');
    }
  }

  lemma {:induction false} AtIsSpecial(s: string)
    requires '@' in s
    ensures CountWhere(s, IsSpecial) >= 1
  {
    if s[0] != '@' {
      AtIsSpecial(s[1..]);
    }
  }
}
