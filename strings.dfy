/** Character classes and string operations shared by the extension and the
    backend models: counting, substring search, prefixes and suffixes, ASCII
    lower-casing and Python's `str.split` with a one-character separator. */
module Strings {

  predicate IsAsciiDigit(c: char) { '0' <= c <= '9' }

  predicate IsAsciiLetter(c: char) { 'a' <= c <= 'z' || 'A' <= c <= 'Z' }

  predicate IsHexDigit(c: char) { IsAsciiDigit(c) || 'a' <= c <= 'f' || 'A' <= c <= 'F' }

  predicate IsUpperAscii(c: char) { 'A' <= c <= 'Z' }

  /** `str.lower()` restricted to ASCII letters. */
  function LowerChar(c: char): (r: char)
    ensures !IsUpperAscii(r)
    ensures IsAsciiLetter(c) <==> IsAsciiLetter(r)
  {
    if IsUpperAscii(c) then (c as int + 32) as char else c
  }

  function Lower(s: string): (r: string)
    ensures |r| == |s|
    ensures forall i :: 0 <= i < |s| ==> r[i] == LowerChar(s[i])
  {
    seq(|s|, i requires 0 <= i < |s| => LowerChar(s[i]))
  }

  predicate StartsWith(s: string, p: string) { |p| <= |s| && s[..|p|] == p }

  predicate EndsWith(s: string, p: string) { |p| <= |s| && s[|s| - |p|..] == p }

  /** `t` occurs in `s` at offset `i`. */
  predicate OccursAt(s: string, t: string, i: nat) { i + |t| <= |s| && s[i..i + |t|] == t }

  /** Python's `t in s` for strings, as a left-to-right search. */
  predicate Contains(s: string, t: string)
  {
    StartsWith(s, t) || (s != [] && Contains(s[1..], t))
  }

  lemma {:induction false} ContainsIff(s: string, t: string)
    ensures Contains(s, t) <==> exists i: nat :: i <= |s| && OccursAt(s, t, i)
  {
    if StartsWith(s, t) {
      assert OccursAt(s, t, 0);
    } else if s == [] {
      forall i: nat | i <= |s| ensures !OccursAt(s, t, i) {
        assert i == 0;
      }
    } else {
      ContainsIff(s[1..], t);
      forall i: nat | 0 < i <= |s| ensures OccursAt(s, t, i) <==> OccursAt(s[1..], t, i - 1) {
        OccursAtTail(s, t, i);
      }
      if Contains(s[1..], t) {
        var i: nat :| i <= |s[1..]| && OccursAt(s[1..], t, i);
        assert OccursAt(s, t, i + 1);
      } else {
        assert !OccursAt(s, t, 0);
      }
    }
  }

  lemma OccursAtTail(s: string, t: string, i: nat)
    requires 0 < i <= |s|
    ensures OccursAt(s, t, i) <==> OccursAt(s[1..], t, i - 1)
  {
    if i + |t| <= |s| {
      var later, here := s[1..][i - 1..i - 1 + |t|], s[i..i + |t|];
      assert forall k :: 0 <= k < |t| ==> later[k] == here[k];
      assert later == here;
    }
  }

  /** The number of positions of `s` holding `c` (Python's `s.count(c)`). */
  function Count(s: string, c: char): nat
  {
    if s == [] then 0 else (if s[0] == c then 1 else 0) + Count(s[1..], c)
  }

  /** The number of characters of `s` that satisfy `p` (Python's `sum(1 for c in s if p(c))`). */
  function CountWhere(s: string, p: char -> bool): nat
  {
    if s == [] then 0 else (if p(s[0]) then 1 else 0) + CountWhere(s[1..], p)
  }

  lemma {:induction false} CountAppend(a: string, b: string, c: char)
    ensures Count(a + b, c) == Count(a, c) + Count(b, c)
  {
    if a != [] {
      assert (a + b)[1..] == a[1..] + b;
      CountAppend(a[1..], b, c);
    } else {
      assert a + b == b;
    }
  }

  lemma {:induction false} CountWhereAppend(a: string, b: string, p: char -> bool)
    ensures CountWhere(a + b, p) == CountWhere(a, p) + CountWhere(b, p)
  {
    if a != [] {
      assert (a + b)[1..] == a[1..] + b;
      CountWhereAppend(a[1..], b, p);
    } else {
      assert a + b == b;
    }
  }

  /** A slice never holds more occurrences than the whole string. */
  lemma CountSlice(s: string, i: nat, j: nat, c: char)
    requires i <= j <= |s|
    ensures Count(s[i..j], c) <= Count(s, c)
  {
    assert s == s[..i] + s[i..j] + s[j..];
    CountAppend(s[..i] + s[i..j], s[j..], c);
    CountAppend(s[..i], s[i..j], c);
  }

  lemma {:induction false} CountBelowLength(s: string, c: char)
    ensures Count(s, c) <= |s|
  {
    if s != [] { CountBelowLength(s[1..], c); }
  }

  /** Characters satisfying two disjoint predicates together never outnumber the characters. */
  lemma {:induction false} CountWhereDisjoint(s: string, p: char -> bool, q: char -> bool)
    requires forall c :: !(p(c) && q(c))
    ensures CountWhere(s, p) + CountWhere(s, q) <= |s|
  {
    if s != [] { CountWhereDisjoint(s[1..], p, q); }
  }

  /** Occurrences of one character are among the characters of any class containing it. */
  lemma {:induction false} CountBelowCountWhere(s: string, c: char, p: char -> bool)
    requires p(c)
    ensures Count(s, c) <= CountWhere(s, p)
  {
    if s != [] { CountBelowCountWhere(s[1..], c, p); }
  }

  /** The parts of Python's `s.split(sep)`: never empty, the separators removed. */
  function Split(s: string, sep: char): (parts: seq<string>)
    ensures |parts| >= 1
  {
    if s == [] then [[]]
    else
      var rest := Split(s[1..], sep);
      if s[0] == sep then [[]] + rest else [[s[0]] + rest[0]] + rest[1..]
  }

  /** Python's `sep.join(parts)`. */
  function Join(parts: seq<string>, sep: char): string
    requires |parts| >= 1
  {
    if |parts| == 1 then parts[0] else parts[0] + [sep] + Join(parts[1..], sep)
  }

  lemma {:induction false} SplitCount(s: string, sep: char)
    ensures |Split(s, sep)| == Count(s, sep) + 1
  {
    if s != [] { SplitCount(s[1..], sep); }
  }

  lemma {:induction false} SplitPartsHaveNoSeparator(s: string, sep: char)
    ensures forall k :: 0 <= k < |Split(s, sep)| ==> sep !in Split(s, sep)[k]
  {
    if s != [] { SplitPartsHaveNoSeparator(s[1..], sep); }
  }

  lemma {:induction false} JoinSplit(s: string, sep: char)
    ensures Join(Split(s, sep), sep) == s
  {
    if s != [] {
      var rest := Split(s[1..], sep);
      JoinSplit(s[1..], sep);
      if s[0] == sep {
        assert Split(s, sep)[1..] == rest;
      } else {
        var parts := Split(s, sep);
        assert parts[1..] == rest[1..];
        if |rest| > 1 {
          assert Join(rest, sep) == rest[0] + [sep] + Join(rest[1..], sep);
          assert Join(parts, sep) == [s[0]] + rest[0] + [sep] + Join(rest[1..], sep);
        }
      }
    }
  }

  /** The first part of a split is a prefix of the string. */
  lemma {:induction false} SplitHeadIsPrefix(s: string, sep: char)
    ensures |Split(s, sep)[0]| <= |s| && s[..|Split(s, sep)[0]|] == Split(s, sep)[0]
  {
    if s != [] && s[0] != sep { SplitHeadIsPrefix(s[1..], sep); }
  }

  /** Joining the parts from `k` on gives a suffix of the joined string, after a separator. */
  lemma {:induction false} JoinTail(parts: seq<string>, sep: char, k: nat)
    requires 1 <= k < |parts|
    ensures Join(parts, sep) == Join(parts[..k], sep) + [sep] + Join(parts[k..], sep)
  {
    if k > 1 {
      JoinTail(parts[1..], sep, k - 1);
      assert parts[1..][..k - 1] == parts[..k][1..];
      assert parts[1..][k - 1..] == parts[k..];
    } else {
      assert parts[..1] == [parts[0]];
    }
  }

  /** Python's split in one step: up to the first separator, then the rest. */
  lemma {:induction false} SplitAtFirst(s: string, sep: char)
    ensures var k := FirstOf(s, 0, {sep});
      Split(s, sep) == if k == |s| then [s] else [s[..k]] + Split(s[k + 1..], sep)
  {
    if s != [] && s[0] != sep {
      SplitAtFirst(s[1..], sep);
      FirstOfTail(s, {sep});
      var k := FirstOf(s, 0, {sep});
      if k < |s| {
        assert [s[0]] + s[1..][..k - 1] == s[..k];
        assert s[1..][k - 1 + 1..] == s[k + 1..];
      } else {
        assert [s[0]] + s[1..] == s;
      }
    }
  }

  /** Some position of `s` is one where a match of `startsHere` begins
      (the scan of Python's `re.search`). */
  predicate Anywhere(s: string, startsHere: string -> bool)
  {
    startsHere(s) || (s != [] && Anywhere(s[1..], startsHere))
  }

  lemma {:induction false} AnywhereIff(s: string, startsHere: string -> bool)
    ensures Anywhere(s, startsHere) <==> exists i :: 0 <= i <= |s| && startsHere(s[i..])
  {
    assert s[0..] == s;
    if s != [] {
      AnywhereIff(s[1..], startsHere);
      if Anywhere(s[1..], startsHere) {
        var i :| 0 <= i <= |s[1..]| && startsHere(s[1..][i..]);
        assert s[1..][i..] == s[i + 1..];
      }
      if i :| 0 < i <= |s| && startsHere(s[i..]) {
        assert s[1..][i - 1..] == s[i..];
      }
    }
  }

  /** The first index at or after `from` whose character is in `stops`, or `|s|`
      (the delimiter search of Python's `str.find` and of `urlsplit`). */
  function FirstOf(s: string, from: nat, stops: set<char>): (k: nat)
    requires from <= |s|
    ensures from <= k <= |s|
    ensures k < |s| ==> s[k] in stops
    ensures forall j :: from <= j < k ==> s[j] !in stops
    decreases |s| - from
  {
    if from == |s| || s[from] in stops then from else FirstOf(s, from + 1, stops)
  }

  lemma FirstOfTail(s: string, stops: set<char>)
    requires s != [] && s[0] !in stops
    ensures FirstOf(s, 0, stops) == 1 + FirstOf(s[1..], 0, stops)
  {
    FirstOfShift(s[..1], s[1..], 0, stops);
    assert s[..1] + s[1..] == s;
  }

  /** Searching past a prefix is searching the rest, shifted by the prefix. */
  lemma {:induction false} FirstOfShift(a: string, b: string, j: nat, stops: set<char>)
    requires j <= |b|
    ensures FirstOf(a + b, |a| + j, stops) == |a| + FirstOf(b, j, stops)
    decreases |b| - j
  {
    if j < |b| {
      assert (a + b)[|a| + j] == b[j];
      if b[j] !in stops {
        FirstOfShift(a, b, j + 1, stops);
      }
    }
  }
}
