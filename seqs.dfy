/** Order-preserving filtering of sequences, the common shape of
    `checkpoint[checkpoint['tags'].apply(has_tag)]` and of the popup loop. */
module Seqs {

  /** The elements of `s` that satisfy `p`, in their original order. Defined
      from the back, so that a loop that appends matching elements one by one
      keeps `Filter(s[..i], p)` as its invariant. */
  function Filter<T>(s: seq<T>, p: T -> bool): seq<T>
    decreases |s|
  {
    if s == [] then []
    else Filter(s[..|s| - 1], p) + (if p(s[|s| - 1]) then [s[|s| - 1]] else [])
  }

  /** `a` is obtained from `b` by deleting elements. */
  ghost predicate IsSubseq<T>(a: seq<T>, b: seq<T>)
    decreases |b|
  {
    if a == [] then true
    else if b == [] then false
    else (a[|a| - 1] == b[|b| - 1] && IsSubseq(a[..|a| - 1], b[..|b| - 1]))
         || IsSubseq(a, b[..|b| - 1])
  }

  lemma {:induction false} SubseqElements<T>(a: seq<T>, b: seq<T>)
    requires IsSubseq(a, b)
    ensures forall x :: x in a ==> x in b
    decreases |b|
  {
    if a != [] {
      var b' := b[..|b| - 1];
      if a[|a| - 1] == b[|b| - 1] && IsSubseq(a[..|a| - 1], b') {
        SubseqElements(a[..|a| - 1], b');
        assert a == a[..|a| - 1] + [a[|a| - 1]];
        assert b == b' + [b[|b| - 1]];
      } else {
        SubseqElements(a, b');
        assert b == b' + [b[|b| - 1]];
      }
    }
  }

  /** Every element the filter keeps satisfies the predicate. */
  lemma {:induction false} FilterSatisfies<T>(s: seq<T>, p: T -> bool)
    ensures forall x :: x in Filter(s, p) ==> p(x)
    decreases |s|
  {
    if s != [] {
      FilterSatisfies(s[..|s| - 1], p);
    }
  }

  /** The filter deletes elements and never reorders them. */
  lemma {:induction false} FilterIsSubseq<T>(s: seq<T>, p: T -> bool)
    ensures IsSubseq(Filter(s, p), s)
    decreases |s|
  {
    if s != [] {
      var init := s[..|s| - 1];
      FilterIsSubseq(init, p);
      if p(s[|s| - 1]) {
        var r := Filter(s, p);
        assert r[..|r| - 1] == Filter(init, p);
      } else {
        assert Filter(s, p) == Filter(init, p);
        SubseqWeaken(Filter(init, p), init, s[|s| - 1]);
        assert s == init + [s[|s| - 1]];
      }
    }
  }

  lemma {:induction false} SubseqWeaken<T>(a: seq<T>, b: seq<T>, x: T)
    requires IsSubseq(a, b)
    ensures IsSubseq(a, b + [x])
  {
    if a != [] {
      assert (b + [x])[..|b|] == b;
    }
  }

  /** Each element satisfying `p` is kept exactly as often as it occurs in
      `s`; no other element is kept. Together with `FilterIsSubseq` this
      determines the filter completely. */
  lemma {:induction false} FilterCount<T>(s: seq<T>, p: T -> bool)
    ensures forall x :: multiset(Filter(s, p))[x] == if p(x) then multiset(s)[x] else 0
    decreases |s|
  {
    if s != [] {
      var init, last := s[..|s| - 1], s[|s| - 1];
      FilterCount(init, p);
      assert s == init + [last];
      assert multiset(s) == multiset(init) + multiset{last};
    }
  }

  /** Filtering twice with the same predicate changes nothing more. */
  lemma {:induction false} FilterIdempotent<T>(s: seq<T>, p: T -> bool)
    ensures Filter(Filter(s, p), p) == Filter(s, p)
    decreases |s|
  {
    if s != [] {
      var init, last := s[..|s| - 1], s[|s| - 1];
      FilterIdempotent(init, p);
      if p(last) {
        FilterSnoc(Filter(init, p), p, last);
      } else {
        assert Filter(s, p) == Filter(init, p);
      }
    }
  }

  /** Appending one element extends the filter by that element or by nothing. */
  lemma FilterSnoc<T>(s: seq<T>, p: T -> bool, x: T)
    ensures Filter(s + [x], p) == Filter(s, p) + (if p(x) then [x] else [])
  {
    assert (s + [x])[..|s|] == s;
  }

  /** When every element satisfies the predicate the filter is the identity. */
  lemma {:induction false} FilterKeepsAll<T>(s: seq<T>, p: T -> bool)
    requires forall x :: x in s ==> p(x)
    ensures Filter(s, p) == s
    decreases |s|
  {
    if s != [] {
      FilterKeepsAll(s[..|s| - 1], p);
      assert s == s[..|s| - 1] + [s[|s| - 1]];
    }
  }
}
