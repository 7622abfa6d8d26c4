/** The part of Python's `urllib.parse.urlparse` that the backend reads: the
    scheme, the network location and the path of a URL, split as
    `urlsplit` does (section 3 of RFC 3986). */
module UrlParse {
  import opened Strings

  datatype ParsedUrl = ParsedUrl(scheme: string, netloc: string, path: string)

  predicate IsSchemeChar(c: char)
  {
    IsAsciiLetter(c) || IsAsciiDigit(c) || c == '+' || c == '-' || c == '.'
  }

  /** The position of the first `:`, or the length of the URL when there is none. */
  function ColonAt(url: string): nat
  {
    FirstOf(url, 0, {':'})
  }

  /** What precedes the first `:` is a scheme when it is non-empty, starts with
      an ASCII letter and holds only letters, digits, `+`, `-` and `.`. */
  predicate HasScheme(url: string)
  {
    0 < ColonAt(url) < |url| && IsAsciiLetter(url[0]) &&
    forall k :: 0 <= k < ColonAt(url) ==> IsSchemeChar(url[k])
  }

  /** The position just after `scheme:`, or 0 when there is no scheme. */
  function SchemeEnd(url: string): (r: nat)
    ensures r <= |url|
  {
    if HasScheme(url) then ColonAt(url) + 1 else 0
  }

  /** A network location is present when `//` follows the scheme. */
  predicate HasAuthority(url: string)
  {
    var r := SchemeEnd(url);
    r + 2 <= |url| && url[r] == '/' && url[r + 1] == '/'
  }

  function NetlocStart(url: string): (r: nat)
    ensures SchemeEnd(url) <= r <= |url|
  {
    if HasAuthority(url) then SchemeEnd(url) + 2 else SchemeEnd(url)
  }

  /** The network location runs up to the first `/`, `?` or `#`. */
  function NetlocEnd(url: string): (r: nat)
    ensures NetlocStart(url) <= r <= |url|
  {
    if HasAuthority(url) then FirstOf(url, NetlocStart(url), {'/', '?', '#'}) else NetlocStart(url)
  }

  /** The path runs from there up to the first `?` or `#`. */
  function PathEnd(url: string): (r: nat)
    ensures NetlocEnd(url) <= r <= |url|
  {
    FirstOf(url, NetlocEnd(url), {'?', '#'})
  }

  /** `urlparse(url)`, reduced to the three components the backend reads. */
  function Parse(url: string): (p: ParsedUrl)
    ensures forall i :: 0 <= i < |p.scheme| ==> !IsUpperAscii(p.scheme[i])
    ensures '/' !in p.netloc && '?' !in p.netloc && '#' !in p.netloc
    ensures '?' !in p.path && '#' !in p.path
    ensures HasAuthority(url) && p.path != [] ==> p.path[0] == '/'
    ensures !HasAuthority(url) ==> p.netloc == []
    ensures |p.scheme| + |p.netloc| + |p.path| <= |url|
  {
    var p := ParsedUrl(if HasScheme(url) then Lower(url[..ColonAt(url)]) else [],
                       url[NetlocStart(url)..NetlocEnd(url)],
                       url[NetlocEnd(url)..PathEnd(url)]);
    SliceAvoids(url, NetlocStart(url), NetlocEnd(url), {'/', '?', '#'});
    SliceAvoids(url, NetlocEnd(url), PathEnd(url), {'?', '#'});
    p
  }

  /** The network location and the path are consecutive slices of the URL. */
  lemma ParseSlices(url: string)
    ensures Parse(url).netloc == url[NetlocStart(url)..NetlocEnd(url)]
    ensures Parse(url).path == url[NetlocEnd(url)..PathEnd(url)]
  {
  }

  lemma SliceAvoids(s: string, i: nat, j: nat, stops: set<char>)
    requires i <= j <= |s|
    requires forall k :: i <= k < j ==> s[k] !in stops
    ensures forall c :: c in s[i..j] ==> c !in stops
  {
    forall c | c in s[i..j] ensures c !in stops {
      var k :| 0 <= k < j - i && s[i..j][k] == c;
      assert s[i + k] == c;
    }
  }

  /** For a URL that starts with `http://` or `https://`, the scheme is `http`
      or `https` and the network location is everything after the `//` up to
      the first `/`, `?` or `#`. */
  lemma HttpUrlParts(prefix: string, rest: string)
    requires prefix == "http://" || prefix == "https://"
    ensures Parse(prefix + rest).scheme == prefix[..|prefix| - 3]
    ensures Parse(prefix + rest).netloc == rest[..FirstOf(rest, 0, {'/', '?', '#'})]
    ensures NetlocEnd(prefix + rest) == |prefix| + FirstOf(rest, 0, {'/', '?', '#'})
  {
    var url := prefix + rest;
    HttpPrefixScheme(prefix, rest);
    FirstOfShift(prefix, rest, 0, {'/', '?', '#'});
    assert url[|prefix|..] == rest;
    assert url[|prefix|..NetlocEnd(url)] == rest[..FirstOf(rest, 0, {'/', '?', '#'})];
  }

  lemma HttpPrefixScheme(prefix: string, rest: string)
    requires prefix == "http://" || prefix == "https://"
    ensures HasScheme(prefix + rest) && ColonAt(prefix + rest) == |prefix| - 3
    ensures Parse(prefix + rest).scheme == prefix[..|prefix| - 3]
    ensures HasAuthority(prefix + rest) && NetlocStart(prefix + rest) == |prefix|
  {
    var url := prefix + rest;
    var c := |prefix| - 3;
    assert forall k :: 0 <= k < |prefix| ==> url[k] == prefix[k];
    ColonAtPrefix(url, c);
    assert url[..c] == prefix[..c];
    assert Lower(prefix[..c]) == prefix[..c];
  }

  lemma ColonAtPrefix(url: string, c: nat)
    requires c < |url| && url[c] == ':' && forall k :: 0 <= k < c ==> url[k] != ':'
    ensures ColonAt(url) == c
  {
  }
}
