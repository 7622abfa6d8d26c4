/** The contents of a JavaScript `Set` of URL strings filled by `add` calls, as
    `Array.from(set)` returns them: each value once, in the order of its first
    insertion. */
module OrderedSet {

  predicate Distinct(s: seq<string>)
  {
    forall i, j :: 0 <= i < j < |s| ==> s[i] != s[j]
  }

  /** `Array.from(set)` after `set.add(s[0])`, ..., `set.add(s[|s| - 1])` on an empty set. */
  function Dedup(s: seq<string>): seq<string>
  {
    if s == [] then []
    else
      var d := Dedup(s[..|s| - 1]);
      var x := s[|s| - 1];
      if x in d then d else d + [x]
  }

  /** One more `add` call: a value already in the set leaves it as it is. */
  lemma DedupSnoc(s: seq<string>, x: string)
    ensures Dedup(s + [x]) == if x in Dedup(s) then Dedup(s) else Dedup(s) + [x]
  {
    assert (s + [x])[..|s|] == s;
  }

  /** The set holds every added value exactly once, and nothing else. */
  lemma {:induction false} DedupIsDistinctValues(s: seq<string>)
    ensures Distinct(Dedup(s))
    ensures forall x :: x in Dedup(s) <==> x in s
  {
    if s != [] {
      var s', x := s[..|s| - 1], s[|s| - 1];
      assert s == s' + [x];
      DedupIsDistinctValues(s');
    }
  }

  /** The position of the first occurrence of `x` in `s`. */
  function FirstIndex(s: seq<string>, x: string): (k: nat)
    requires x in s
    ensures k < |s| && s[k] == x && x !in s[..k]
  {
    if s[0] == x then 0 else 1 + FirstIndex(s[1..], x)
  }

  lemma FirstIndexInPrefix(s: seq<string>, n: nat, x: string)
    requires n <= |s| && x in s[..n]
    ensures FirstIndex(s, x) == FirstIndex(s[..n], x)
  {
    var k' := FirstIndex(s[..n], x);
    assert s[..n][k'] == s[k'];
  }

  /** Insertion order: the values come out in the order of their first occurrence. */
  lemma {:induction false} DedupKeepsFirstOccurrenceOrder(s: seq<string>)
    ensures forall x :: x in Dedup(s) ==> x in s
    ensures forall i, j :: 0 <= i < j < |Dedup(s)| ==> FirstIndex(s, Dedup(s)[i]) < FirstIndex(s, Dedup(s)[j])
  {
    DedupIsDistinctValues(s);
    if s != [] {
      var n := |s| - 1;
      var d := Dedup(s[..n]);
      var x := s[n];
      DedupKeepsFirstOccurrenceOrder(s[..n]);
      DedupIsDistinctValues(s[..n]);
      forall y | y in d ensures FirstIndex(s, y) == FirstIndex(s[..n], y) && FirstIndex(s, y) < n {
        FirstIndexInPrefix(s, n, y);
      }
      if x !in d {
        assert x !in s[..n];
        assert FirstIndex(s, x) == n;
      }
    }
  }

  /** The values of `s` that are not in `excluded`, in order. */
  function Without(s: seq<string>, excluded: seq<string>): seq<string>
  {
    if s == [] then []
    else
      var w := Without(s[..|s| - 1], excluded);
      var x := s[|s| - 1];
      if x in excluded then w else w + [x]
  }

  lemma WithoutSnoc(s: seq<string>, x: string, excluded: seq<string>)
    ensures Without(s + [x], excluded) == if x in excluded then Without(s, excluded) else Without(s, excluded) + [x]
  {
    assert (s + [x])[..|s|] == s;
  }

  lemma {:induction false} WithoutValues(s: seq<string>, excluded: seq<string>)
    ensures forall x :: x in Without(s, excluded) <==> x in s && x !in excluded
  {
    if s != [] {
      var s', x := s[..|s| - 1], s[|s| - 1];
      assert s == s' + [x];
      WithoutValues(s', excluded);
    }
  }

  /** Adding `a` and then `b` yields the distinct values of `a`, followed by
      the distinct values of `b` not already in `a`. */
  lemma {:induction false} DedupAppend(a: seq<string>, b: seq<string>)
    ensures Dedup(a + b) == Dedup(a) + Without(Dedup(b), a)
  {
    if b == [] {
      assert a + b == a;
    } else {
      var b', x := b[..|b| - 1], b[|b| - 1];
      assert b == b' + [x];
      DedupAppend(a, b');
      DedupAppendSnoc(a, b', x);
    }
  }

  lemma DedupAppendSnoc(a: seq<string>, b': seq<string>, x: string)
    requires Dedup(a + b') == Dedup(a) + Without(Dedup(b'), a)
    ensures Dedup(a + (b' + [x])) == Dedup(a) + Without(Dedup(b' + [x]), a)
  {
    assert a + (b' + [x]) == (a + b') + [x];
    if x in a + b' {
      KnownValueSnoc(a, b', x);
    } else {
      NewValueSnoc(a, b', x);
    }
  }

  lemma KnownValueSnoc(a: seq<string>, b': seq<string>, x: string)
    requires Dedup(a + b') == Dedup(a) + Without(Dedup(b'), a)
    requires x in a + b'
    ensures Dedup((a + b') + [x]) == Dedup(a) + Without(Dedup(b' + [x]), a)
  {
    DedupSnoc(a + b', x);
    DedupHasValue(a + b', x);
    AppendKnownValue(a, b', x);
  }

  lemma NewValueSnoc(a: seq<string>, b': seq<string>, x: string)
    requires Dedup(a + b') == Dedup(a) + Without(Dedup(b'), a)
    requires x !in a + b'
    ensures Dedup((a + b') + [x]) == Dedup(a) + Without(Dedup(b' + [x]), a)
  {
    var d, w := Dedup(a), Without(Dedup(b'), a);
    assert x !in a && x !in b';
    calc {
      Dedup((a + b') + [x]);
      == { DedupLacksValue(a + b', x); DedupSnoc(a + b', x); }
      Dedup(a + b') + [x];
      ==
      (d + w) + [x];
      == { assert (d + w) + [x] == d + (w + [x]); }
      d + (w + [x]);
      == { WithoutSnoc(Dedup(b'), x, a); }
      d + Without(Dedup(b') + [x], a);
      == { DedupLacksValue(b', x); DedupSnoc(b', x); }
      d + Without(Dedup(b' + [x]), a);
    }
  }

  /** A value of `a` or `b'` added once more leaves the filtered tail unchanged. */
  lemma AppendKnownValue(a: seq<string>, b': seq<string>, x: string)
    requires x in a + b'
    ensures Without(Dedup(b' + [x]), a) == Without(Dedup(b'), a)
  {
    DedupSnoc(b', x);
    if x in b' {
      DedupHasValue(b', x);
    } else {
      DedupLacksValue(b', x);
      WithoutSnoc(Dedup(b'), x, a);
    }
  }

  lemma DedupHasValue(s: seq<string>, x: string)
    requires x in s
    ensures x in Dedup(s)
  {
    DedupIsDistinctValues(s);
  }

  lemma DedupLacksValue(s: seq<string>, x: string)
    requires x !in s
    ensures x !in Dedup(s)
  {
    DedupIsDistinctValues(s);
  }
}
