/** The Python string operations the catalog code relies on: `in` between
    two strings, `str.strip()`, `re.split(r'\W+', s)`, and `sorted()` on a set
    of strings (code-point order). Which characters count as word characters
    (`\w`) is a parameter `isWord`: the Unicode tables are not modelled. */
module Text {

  // ---------------------------------------------------------------------
  // `needle in hay` for two strings

  /** `needle` occurs in `hay` starting at index `i`. */
  ghost predicate OccursAt(needle: string, hay: string, i: int) {
    0 <= i && i + |needle| <= |hay| && hay[i..i + |needle|] == needle
  }

  predicate IsPrefix(p: string, s: string) {
    |p| <= |s| && s[..|p|] == p
  }

  /** Python's `needle in hay` on two `str` values: substring containment. */
  predicate Contains(hay: string, needle: string)
    decreases |hay|
  {
    IsPrefix(needle, hay) || (hay != [] && Contains(hay[1..], needle))
  }

  /** `Contains` holds exactly when the needle occurs at some index. */
  lemma {:induction false} ContainsIffOccurs(hay: string, needle: string)
    ensures Contains(hay, needle) <==> exists i :: OccursAt(needle, hay, i)
    decreases |hay|
  {
    if IsPrefix(needle, hay) {
      assert OccursAt(needle, hay, 0);
    } else if hay != [] {
      ContainsIffOccurs(hay[1..], needle);
      if exists i :: OccursAt(needle, hay[1..], i) {
        var i :| OccursAt(needle, hay[1..], i);
        assert hay[i + 1..i + 1 + |needle|] == hay[1..][i..i + |needle|];
        assert OccursAt(needle, hay, i + 1);
      }
      if exists i :: OccursAt(needle, hay, i) {
        var i :| OccursAt(needle, hay, i);
        assert i != 0;
        assert hay[1..][i - 1..i - 1 + |needle|] == hay[i..i + |needle|];
        assert OccursAt(needle, hay[1..], i - 1);
      }
    }
  }

  // ---------------------------------------------------------------------
  // str.strip()

  /** Python's `str.isspace()` for one character. */
  predicate IsSpace(c: char) {
    ('\t' <= c <= '\r') || ('\U{1c}' <= c <= '\U{1f}') || c == ' '
    || c == '\U{85}' || c == '\U{a0}' || c == '\U{1680}'
    || ('\U{2000}' <= c <= '\U{200a}') || c == '\U{2028}' || c == '\U{2029}'
    || c == '\U{202f}' || c == '\U{205f}' || c == '\U{3000}'
  }

  function StripLeft(s: string): string
    decreases |s|
  {
    if s != [] && IsSpace(s[0]) then StripLeft(s[1..]) else s
  }

  function StripRight(s: string): string
    decreases |s|
  {
    if s != [] && IsSpace(s[|s| - 1]) then StripRight(s[..|s| - 1]) else s
  }

  /** Python's `str.strip()` with no argument. */
  function Strip(s: string): string {
    StripRight(StripLeft(s))
  }

  lemma {:induction false} StripLeftIsSuffix(s: string) returns (i: nat)
    ensures i <= |s| && StripLeft(s) == s[i..]
    ensures forall k :: 0 <= k < i ==> IsSpace(s[k])
    ensures StripLeft(s) == [] || !IsSpace(StripLeft(s)[0])
    decreases |s|
  {
    if s != [] && IsSpace(s[0]) {
      var j := StripLeftIsSuffix(s[1..]);
      i := j + 1;
      assert s[1..][j..] == s[i..];
      forall k | 0 < k < i ensures IsSpace(s[k]) {
        assert s[k] == s[1..][k - 1];
      }
    } else {
      i := 0;
    }
  }

  lemma {:induction false} StripRightIsPrefix(s: string) returns (j: nat)
    ensures j <= |s| && StripRight(s) == s[..j]
    ensures forall k :: j <= k < |s| ==> IsSpace(s[k])
    ensures StripRight(s) == [] || !IsSpace(StripRight(s)[|StripRight(s)| - 1])
    decreases |s|
  {
    if s != [] && IsSpace(s[|s| - 1]) {
      j := StripRightIsPrefix(s[..|s| - 1]);
      assert s[..|s| - 1][..j] == s[..j];
    } else {
      j := |s|;
    }
  }

  /** `Strip(s)` is the slice `s[i..j]` left after removing only white space
      from both ends, and it neither starts nor ends with white space. */
  lemma StripSpec(s: string) returns (i: nat, j: nat)
    ensures i <= j <= |s| && Strip(s) == s[i..j]
    ensures forall k :: 0 <= k < i || j <= k < |s| ==> IsSpace(s[k])
    ensures Strip(s) != [] ==> !IsSpace(Strip(s)[0]) && !IsSpace(Strip(s)[|Strip(s)| - 1])
  {
    i := StripLeftIsSuffix(s);
    var t := StripLeft(s);
    var j' := StripRightIsPrefix(t);
    j := i + j';
    assert t[..j'] == s[i..j];
    forall k | j <= k < |s| ensures IsSpace(s[k]) {
      assert s[k] == t[k - i];
    }
    if Strip(s) != [] {
      assert Strip(s)[0] == t[0];
    }
  }

  /** A string without white space is left unchanged by `Strip`. */
  lemma StripNoSpace(s: string)
    requires forall k :: 0 <= k < |s| ==> !IsSpace(s[k])
    ensures Strip(s) == s
  {
    var i, j := StripSpec(s);
    if |s| > 0 {
      assert !IsSpace(s[0]) && !IsSpace(s[|s| - 1]);
    }
  }

  // ---------------------------------------------------------------------
  // re.split(r'\W+', s)

  /** The word characters of `s`, in order (what remains after deleting
      every separator). */
  function WordChars(s: string, isWord: char -> bool): string
    decreases |s|
  {
    if s == [] then []
    else (if isWord(s[0]) then [s[0]] else []) + WordChars(s[1..], isWord)
  }

  /** `s` without its leading run of non-word characters. */
  function DropSeparators(s: string, isWord: char -> bool): (r: string)
    ensures |r| <= |s| && WordChars(r, isWord) == WordChars(s, isWord)
    ensures s != [] && !isWord(s[0]) ==> |r| < |s|
    decreases |s|
  {
    if s != [] && !isWord(s[0]) then DropSeparators(s[1..], isWord) else s
  }

  /** Splitting state: `cur` is the piece being accumulated. */
  function SplitFrom(s: string, cur: string, isWord: char -> bool): seq<string>
    decreases |s|
  {
    if s == [] then [cur]
    else if isWord(s[0]) then SplitFrom(s[1..], cur + [s[0]], isWord)
    else [cur] + SplitFrom(DropSeparators(s, isWord), "", isWord)
  }

  /** `re.split(r'\W+', s)`: the pieces between maximal runs of non-word
      characters; a leading or trailing run gives an empty first or last
      piece, and the empty string gives `[""]`. */
  function SplitNonWord(s: string, isWord: char -> bool): seq<string> {
    SplitFrom(s, "", isWord)
  }

  function Concat(pieces: seq<string>): string
    decreases |pieces|
  {
    if pieces == [] then [] else pieces[0] + Concat(pieces[1..])
  }

  lemma ConcatCons(p: string, rest: seq<string>)
    ensures Concat([p] + rest) == p + Concat(rest)
  {
    assert ([p] + rest)[1..] == rest;
  }

  lemma {:induction false} SplitFromWordOnly(s: string, cur: string, isWord: char -> bool)
    requires forall k :: 0 <= k < |cur| ==> isWord(cur[k])
    ensures forall p, k :: p in SplitFrom(s, cur, isWord) && 0 <= k < |p| ==> isWord(p[k])
    decreases |s|
  {
    if s == [] {
    } else if isWord(s[0]) {
      SplitFromWordOnly(s[1..], cur + [s[0]], isWord);
    } else {
      SplitFromWordOnly(DropSeparators(s, isWord), "", isWord);
    }
  }

  lemma {:induction false} SplitFromConcat(s: string, cur: string, isWord: char -> bool)
    ensures Concat(SplitFrom(s, cur, isWord)) == cur + WordChars(s, isWord)
    decreases |s|
  {
    if s == [] {
      ConcatCons(cur, []);
    } else if isWord(s[0]) {
      assert SplitFrom(s, cur, isWord) == SplitFrom(s[1..], cur + [s[0]], isWord);
      SplitFromConcat(s[1..], cur + [s[0]], isWord);
      assert WordChars(s, isWord) == [s[0]] + WordChars(s[1..], isWord);
      assert cur + WordChars(s, isWord) == (cur + [s[0]]) + WordChars(s[1..], isWord);
    } else {
      var rest := DropSeparators(s, isWord);
      var pieces := SplitFrom(rest, "", isWord);
      assert SplitFrom(s, cur, isWord) == [cur] + pieces;
      SplitFromConcat(rest, "", isWord);
      ConcatCons(cur, pieces);
      assert WordChars(s, isWord) == WordChars(rest, isWord);
      assert "" + WordChars(rest, isWord) == WordChars(rest, isWord);
    }
  }

  /** Every piece of `re.split(r'\W+', s)` consists of word characters only,
      and joining the pieces gives back exactly the word characters of `s`:
      only separators are lost. */
  lemma SplitNonWordSpec(s: string, isWord: char -> bool)
    ensures |SplitNonWord(s, isWord)| > 0
    ensures forall p, k :: p in SplitNonWord(s, isWord) && 0 <= k < |p| ==> isWord(p[k])
    ensures Concat(SplitNonWord(s, isWord)) == WordChars(s, isWord)
  {
    SplitFromWordOnly(s, "", isWord);
    SplitFromConcat(s, "", isWord);
  }

  /** Every character of `p` is a word character. */
  predicate AllWord(p: string, isWord: char -> bool) {
    forall k :: 0 <= k < |p| ==> isWord(p[k])
  }

  /** `p` is a non-empty run of non-word characters: one separator matched
      by `\W+`. */
  predicate IsSeparator(p: string, isWord: char -> bool) {
    p != [] && NonWord(p, isWord)
  }

  /** No character of `p` is a word character. */
  predicate NonWord(p: string, isWord: char -> bool) {
    forall k :: 0 <= k < |p| ==> !isWord(p[k])
  }

  lemma NonWordCons(c: char, p: string, isWord: char -> bool)
    requires !isWord(c) && NonWord(p, isWord)
    ensures NonWord([c] + p, isWord)
  {
    forall k | 0 < k < |[c] + p|
      ensures !isWord(([c] + p)[k])
    {
      assert ([c] + p)[k] == p[k - 1];
    }
  }

  /** The separators `seps[i]` placed between consecutive `pieces`, each
      before the piece that follows it. */
  function Trailer(pieces: seq<string>, seps: seq<string>): string
    requires |pieces| == |seps|
    decreases |pieces|
  {
    if pieces == [] then [] else seps[0] + pieces[0] + Trailer(pieces[1..], seps[1..])
  }

  /** `pieces[0] + seps[0] + pieces[1] + ... + pieces[n - 1]`. */
  function Rejoin(pieces: seq<string>, seps: seq<string>): string
    requires |pieces| == |seps| + 1
  {
    pieces[0] + Trailer(pieces[1..], seps)
  }

  /** `pieces` and `seps` cut `s` at maximal runs of non-word characters:
      the pieces are word characters only, only the first and the last may
      be empty, every separator is a non-empty non-word run, and putting
      the separators back between the pieces gives `s`. */
  predicate IsSplit(s: string, pieces: seq<string>, seps: seq<string>, isWord: char -> bool) {
    SplitShape(pieces, seps, isWord)
    && (forall i :: 0 <= i < |pieces| ==> AllWord(pieces[i], isWord))
    && Rejoin(pieces, seps) == s
  }

  /** One more piece than separators, no empty piece between two
      separators, and every separator a non-empty non-word run. */
  predicate SplitShape(pieces: seq<string>, seps: seq<string>, isWord: char -> bool) {
    |pieces| == |seps| + 1
    && (forall i :: 0 < i < |seps| ==> pieces[i] != [])
    && (forall i :: 0 <= i < |seps| ==> IsSeparator(seps[i], isWord))
  }

  /** The run `DropSeparators` removes: `s` is that run followed by the
      rest, the run is made of non-word characters, it is non-empty when
      `s` starts with one, and the rest starts with a word character. */
  lemma {:induction false} SeparatorRun(s: string, isWord: char -> bool) returns (run: string)
    ensures s == run + DropSeparators(s, isWord)
    ensures NonWord(run, isWord)
    ensures s != [] && !isWord(s[0]) ==> run != []
    ensures DropSeparators(s, isWord) == [] || isWord(DropSeparators(s, isWord)[0])
    decreases |s|
  {
    if s != [] && !isWord(s[0]) {
      var rest := DropSeparators(s[1..], isWord);
      assert DropSeparators(s, isWord) == rest;
      var r := SeparatorRun(s[1..], isWord);
      NonWordCons(s[0], r, isWord);
      run := [s[0]] + r;
      calc {
        s;
        [s[0]] + s[1..];
        [s[0]] + (r + rest);
        run + rest;
      }
    } else {
      assert DropSeparators(s, isWord) == s;
      run := [];
    }
  }

  /** Dropping a separator run in front of a piece that starts with a word
      character, or of nothing, leaves exactly that piece. */
  lemma {:induction false} DropSeparatorsRun(run: string, rest: string, isWord: char -> bool)
    requires NonWord(run, isWord)
    requires rest == [] || isWord(rest[0])
    ensures DropSeparators(run + rest, isWord) == rest
    decreases |run|
  {
    if run != [] {
      assert (run + rest)[1..] == run[1..] + rest;
      DropSeparatorsRun(run[1..], rest, isWord);
    }
  }

  /** Splitting `s` after the piece `cur` gives pieces that, with the
      separators `seps` put back, rebuild `cur + s`; the first piece is
      non-empty when it starts with `cur` or a word character. */
  ghost predicate RoundTrip(s: string, cur: string, seps: seq<string>, isWord: char -> bool) {
    var pieces := SplitFrom(s, cur, isWord);
    SplitShape(pieces, seps, isWord)
    && (cur != [] || (s != [] && isWord(s[0])) ==> pieces[0] != [])
    && Rejoin(pieces, seps) == cur + s
  }

  lemma {:induction false} SplitFromRoundTrip(s: string, cur: string, isWord: char -> bool)
    returns (seps: seq<string>)
    ensures RoundTrip(s, cur, seps, isWord)
    decreases |s|
  {
    if s == [] {
      seps := [];
      assert SplitFrom(s, cur, isWord) == [cur];
    } else if isWord(s[0]) {
      seps := SplitFromRoundTrip(s[1..], cur + [s[0]], isWord);
      WordStep(s, cur, seps, isWord);
    } else {
      var run := SeparatorRun(s, isWord);
      var tail := SplitFromRoundTrip(DropSeparators(s, isWord), "", isWord);
      SeparatorStep(s, cur, run, tail, isWord);
      seps := [run] + tail;
    }
  }

  /** A word character joins the current piece. */
  lemma WordStep(s: string, cur: string, seps: seq<string>, isWord: char -> bool)
    requires s != [] && isWord(s[0])
    requires RoundTrip(s[1..], cur + [s[0]], seps, isWord)
    ensures RoundTrip(s, cur, seps, isWord)
  {
    assert SplitFrom(s, cur, isWord) == SplitFrom(s[1..], cur + [s[0]], isWord);
    assert cur + s == (cur + [s[0]]) + s[1..];
  }

  /** A separator run closes the current piece and starts an empty one. */
  lemma SeparatorStep(s: string, cur: string, run: string, tail: seq<string>, isWord: char -> bool)
    requires s != [] && !isWord(s[0])
    requires s == run + DropSeparators(s, isWord) && IsSeparator(run, isWord)
    requires DropSeparators(s, isWord) == [] || isWord(DropSeparators(s, isWord)[0])
    requires RoundTrip(DropSeparators(s, isWord), "", tail, isWord)
    ensures RoundTrip(s, cur, [run] + tail, isWord)
  {
    var rest := DropSeparators(s, isWord);
    var pieces := SplitFrom(rest, "", isWord);
    assert SplitFrom(s, cur, isWord) == [cur] + pieces;
    assert |tail| > 0 ==> pieces[0] != [] by {
      if rest == [] {
        assert pieces == [""];
      }
    }
    assert Rejoin(pieces, tail) == rest by {
      assert "" + rest == rest;
    }
    ShapeCons(cur, run, pieces, tail, isWord);
    RejoinCons(cur, run, rest, s, pieces, tail);
  }

  /** Putting a piece and a separator in front of a split keeps its shape. */
  lemma ShapeCons(first: string, sep: string, pieces: seq<string>, seps: seq<string>, isWord: char -> bool)
    requires SplitShape(pieces, seps, isWord)
    requires IsSeparator(sep, isWord)
    requires |seps| > 0 ==> pieces[0] != []
    ensures SplitShape([first] + pieces, [sep] + seps, isWord)
  {
  }

  /** Putting a piece and a separator in front of a split of `rest` gives
      a split of the piece followed by `sep + rest`. */
  lemma RejoinCons(first: string, sep: string, rest: string, s: string, pieces: seq<string>, seps: seq<string>)
    requires s == sep + rest
    requires |pieces| == |seps| + 1 && Rejoin(pieces, seps) == rest
    ensures Rejoin([first] + pieces, [sep] + seps) == first + s
  {
    assert ([first] + pieces)[1..] == pieces;
    assert ([sep] + seps)[1..] == seps;
  }

  /** `re.split(r'\W+', s)` cuts `s` at maximal runs of non-word
      characters: with the runs it dropped put back, the pieces rebuild
      `s`. */
  lemma SplitNonWordRoundTrip(s: string, isWord: char -> bool) returns (seps: seq<string>)
    ensures IsSplit(s, SplitNonWord(s, isWord), seps, isWord)
  {
    seps := SplitFromRoundTrip(s, "", isWord);
    assert "" + s == s;
    assert SplitShape(SplitNonWord(s, isWord), seps, isWord);
    SplitFromWordOnly(s, "", isWord);
    var pieces := SplitNonWord(s, isWord);
    forall i | 0 <= i < |pieces|
      ensures AllWord(pieces[i], isWord)
    {
      assert pieces[i] in pieces;
    }
  }

  lemma {:induction false} SplitFromUnique(w: string, pieces: seq<string>, seps: seq<string>,
                                           cur: string, isWord: char -> bool)
    requires |pieces| == |seps|
    requires AllWord(w, isWord)
    requires forall i :: 0 <= i < |pieces| ==> AllWord(pieces[i], isWord)
    requires forall i :: 0 <= i < |pieces| - 1 ==> pieces[i] != []
    requires forall i :: 0 <= i < |seps| ==> IsSeparator(seps[i], isWord)
    ensures SplitFrom(w + Trailer(pieces, seps), cur, isWord) == [cur + w] + pieces
    decreases |w + Trailer(pieces, seps)|
  {
    var s := w + Trailer(pieces, seps);
    if w != [] {
      assert s[0] == w[0] && s[1..] == w[1..] + Trailer(pieces, seps);
      SplitFromUnique(w[1..], pieces, seps, cur + [w[0]], isWord);
      assert (cur + [w[0]]) + w[1..] == cur + w;
    } else if pieces != [] {
      var x := pieces[0] + Trailer(pieces[1..], seps[1..]);
      assert s == seps[0] + x;
      assert s[0] == seps[0][0];
      assert x == [] || isWord(x[0]) by {
        if pieces[0] == [] {
          assert |pieces| == 1;
        }
      }
      DropSeparatorsRun(seps[0], x, isWord);
      SplitFromUnique(pieces[0], pieces[1..], seps[1..], "", isWord);
      assert "" + pieces[0] == pieces[0];
      assert [pieces[0]] + pieces[1..] == pieces;
      assert cur + w == cur;
    } else {
      assert s == [] && cur + w == cur;
    }
  }

  /** The cut is unique: any split of `s` at maximal non-word runs is the
      one `re.split(r'\W+', s)` returns. */
  lemma SplitNonWordUnique(s: string, pieces: seq<string>, seps: seq<string>, isWord: char -> bool)
    requires IsSplit(s, pieces, seps, isWord)
    ensures SplitNonWord(s, isWord) == pieces
  {
    assert s == pieces[0] + Trailer(pieces[1..], seps);
    SplitFromUnique(pieces[0], pieces[1..], seps, "", isWord);
    assert "" + pieces[0] == pieces[0];
    assert [pieces[0]] + pieces[1..] == pieces;
  }

  // ---------------------------------------------------------------------
  // Code-point order on strings and sorted()

  /** Python's `<` on `str`: lexicographic by code point, a proper prefix
      coming first. */
  predicate StrLess(a: string, b: string)
    decreases |a|
  {
    b != [] && (a == [] || a[0] < b[0] || (a[0] == b[0] && StrLess(a[1..], b[1..])))
  }

  lemma {:induction false} StrLessIrreflexive(a: string)
    ensures !StrLess(a, a)
    decreases |a|
  {
    if a != [] {
      StrLessIrreflexive(a[1..]);
    }
  }

  lemma {:induction false} StrLessTransitive(a: string, b: string, c: string)
    requires StrLess(a, b) && StrLess(b, c)
    ensures StrLess(a, c)
    decreases |a|
  {
    if a != [] && a[0] == b[0] && b[0] == c[0] {
      StrLessTransitive(a[1..], b[1..], c[1..]);
    }
  }

  lemma {:induction false} StrLessTotal(a: string, b: string)
    requires a != b
    ensures StrLess(a, b) || StrLess(b, a)
    decreases |a|
  {
    if a != [] && b != [] && a[0] == b[0] {
      assert a == [a[0]] + a[1..] && b == [b[0]] + b[1..];
      StrLessTotal(a[1..], b[1..]);
    }
  }

  /** The strings are in strictly increasing order, hence pairwise distinct. */
  ghost predicate StrictlySorted(s: seq<string>) {
    forall i, j :: 0 <= i < j < |s| ==> StrLess(s[i], s[j])
  }

  lemma StrictlySortedDistinct(s: seq<string>)
    requires StrictlySorted(s)
    ensures forall i, j :: 0 <= i < |s| && 0 <= j < |s| && i != j ==> s[i] != s[j]
  {
    forall i, j | 0 <= i < |s| && 0 <= j < |s| && i != j ensures s[i] != s[j] {
      if i < j { StrLessIrreflexive(s[i]); } else { StrLessIrreflexive(s[j]); }
    }
  }

  /** Every non-empty finite set of strings has a least element. */
  lemma {:induction false} LeastExists(s: set<string>) returns (m: string)
    requires s != {}
    ensures m in s && forall y :: y in s && y != m ==> StrLess(m, y)
    decreases s
  {
    var x :| x in s;
    if s == {x} {
      m := x;
    } else {
      var m' := LeastExists(s - {x});
      if StrLess(x, m') {
        m := x;
        forall y | y in s && y != m ensures StrLess(m, y) {
          if y != m' { StrLessTransitive(x, m', y); }
        }
      } else {
        m := m';
        StrLessTotal(x, m');
      }
    }
  }

  /** Two strictly sorted sequences holding the same strings are equal, so
      the result of `sorted(set)` is determined by the set. */
  lemma {:induction false} SortedUnique(a: seq<string>, b: seq<string>)
    requires StrictlySorted(a) && StrictlySorted(b)
    requires forall x :: x in a <==> x in b
    ensures a == b
    decreases |a|
  {
    if a != [] { assert a[0] in a; }
    if b != [] { assert b[0] in b; }
    if a != [] && b != [] {
      StrLessIrreflexive(a[0]);
      StrLessIrreflexive(b[0]);
      if a[0] != b[0] {
        var i :| 0 <= i < |b| && b[i] == a[0];
        var j :| 0 <= j < |a| && a[j] == b[0];
        assert StrLess(b[0], a[0]);
        StrLessTransitive(a[0], b[0], a[0]);
        assert false;
      }
      assert a == [a[0]] + a[1..] && b == [b[0]] + b[1..];
      forall x ensures x in a[1..] <==> x in b[1..] {
        if x in a[1..] {
          var k :| 1 <= k < |a| && a[k] == x;
          assert x != a[0] && x in b;
          var k' :| 0 <= k' < |b| && b[k'] == x;
          assert b[1..][k' - 1] == x;
        }
        if x in b[1..] {
          var k :| 1 <= k < |b| && b[k] == x;
          assert x != b[0] && x in a;
          var k' :| 0 <= k' < |a| && a[k'] == x;
          assert a[1..][k' - 1] == x;
        }
      }
      SortedUnique(a[1..], b[1..]);
    }
  }

  /** Python's `sorted()` applied to a set of strings: the set's members in
      strictly increasing code-point order. Each round moves the least
      remaining member to the end of the output. */
  method SortSet(s: set<string>) returns (r: seq<string>)
    ensures StrictlySorted(r)
    ensures forall x :: x in r <==> x in s
    ensures |r| == |s|
  {
    r := [];
    var rest := s;
    while rest != {}
      invariant rest <= s
      invariant StrictlySorted(r)
      invariant forall x :: x in r <==> x in s && x !in rest
      invariant forall x, y :: x in r && y in rest ==> StrLess(x, y)
      invariant |r| + |rest| == |s|
      decreases rest
    {
      ghost var least := LeastExists(rest);
      var m :| m in rest && forall y :: y in rest && y != m ==> StrLess(m, y);
      forall x | x in r ensures x != m {
        StrLessIrreflexive(m);
      }
      r := r + [m];
      rest := rest - {m};
    }
  }
}
