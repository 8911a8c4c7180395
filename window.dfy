/** gui_queshi.py: the tag vocabulary `_update_tag_completer` stores in
    `_tag_list`, the contains-filter `_show_tag_popup` shows, and the search
    for `background.png` in the window constructor. */
module Window {
  import opened Base
  import opened Seqs
  import opened Text
  import opened Paths
  import opened Queshi

  // ---------------------------------------------------------------------
  // The vocabulary, as a set

  /** `str(t)` for one element of an iterable `tags` cell. */
  function Render(a: Atom): string {
    match a
    case AStr(s) => s
    case AOther(repr) => repr
  }

  /** The stripped, non-empty pieces among `parts`. */
  function Pieces(parts: seq<string>): set<string>
    decreases |parts|
  {
    if parts == [] then {}
    else
      var p := Strip(parts[|parts| - 1]);
      Pieces(parts[..|parts| - 1]) + (if p != "" then {p} else {})
  }

  /** `str(t)` for every element of an iterable cell, untrimmed. */
  function Renders(items: seq<Atom>): set<string>
    decreases |items|
  {
    if items == [] then {} else Renders(items[..|items| - 1]) + {Render(items[|items| - 1])}
  }

  /** What one `tags` cell adds to the vocabulary: nothing for `None`; the
      stripped non-empty pieces of `re.split(r'\W+', s)` for a string;
      `str(t)` of each element of an iterable; `str(item)` of a value that
      cannot be iterated. */
  function Contribution(tags: Tags, isWord: char -> bool): set<string> {
    match tags
    case Null => {}
    case Str(s) => Pieces(SplitNonWord(s, isWord))
    case Lst(items) => Renders(items)
    case Other(repr) => {repr}
  }

  /** The union of the contributions of `rows`. */
  function TagSetOf(rows: seq<Dish>, isWord: char -> bool): set<string>
    decreases |rows|
  {
    if rows == [] then {}
    else TagSetOf(rows[..|rows| - 1], isWord) + Contribution(rows[|rows| - 1].tags, isWord)
  }

  /** The set `_update_tag_completer` sorts: empty for a missing or empty
      table and for a table without a `tags` column (the `KeyError` is
      caught and the set reset); otherwise the union over all rows. */
  function VocabularySet(checkpoint: Option<Catalog>, isWord: char -> bool): set<string> {
    if checkpoint.None? || |checkpoint.value.rows| == 0 then {}
    else if !checkpoint.value.hasTagsColumn then {}
    else TagSetOf(checkpoint.value.rows, isWord)
  }

  lemma {:induction false} PiecesMember(parts: seq<string>, t: string)
    ensures t in Pieces(parts) <==> t != "" && exists k :: 0 <= k < |parts| && Strip(parts[k]) == t
    decreases |parts|
  {
    if parts != [] {
      var init := parts[..|parts| - 1];
      PiecesMember(init, t);
      if exists k :: 0 <= k < |parts| && Strip(parts[k]) == t {
        var k :| 0 <= k < |parts| && Strip(parts[k]) == t;
        if k < |parts| - 1 {
          assert init[k] == parts[k];
        }
      }
      if exists k :: 0 <= k < |init| && Strip(init[k]) == t {
        var k :| 0 <= k < |init| && Strip(init[k]) == t;
        assert parts[k] == init[k];
      }
    }
  }

  /** A string cell contributes exactly the stripped, non-empty pieces of
      its split on runs of non-word characters; each such token is made of
      word characters and has no white space at either end. */
  lemma StringContribution(s: string, isWord: char -> bool, t: string)
    ensures t in Contribution(Str(s), isWord) <==>
              t != "" && exists k :: 0 <= k < |SplitNonWord(s, isWord)| && Strip(SplitNonWord(s, isWord)[k]) == t
    ensures t in Contribution(Str(s), isWord) ==>
              t != "" && !IsSpace(t[0]) && !IsSpace(t[|t| - 1])
              && forall c :: 0 <= c < |t| ==> isWord(t[c])
  {
    var parts := SplitNonWord(s, isWord);
    assert Contribution(Str(s), isWord) == Pieces(parts);
    PiecesMember(parts, t);
    if t in Pieces(parts) {
      var k :| 0 <= k < |parts| && Strip(parts[k]) == t;
      SplitNonWordSpec(s, isWord);
      assert parts[k] in parts;
      StrippedWordPiece(parts[k], isWord);
    }
  }

  /** The same in terms of any cut of `s` at maximal runs of non-word
      characters, with no reference to how the split is computed. */
  lemma SplitContribution(s: string, pieces: seq<string>, seps: seq<string>, isWord: char -> bool, t: string)
    requires IsSplit(s, pieces, seps, isWord)
    ensures t in Contribution(Str(s), isWord) <==>
              t != "" && exists k :: 0 <= k < |pieces| && Strip(pieces[k]) == t
  {
    SplitNonWordUnique(s, pieces, seps, isWord);
    StringContribution(s, isWord, t);
  }

  /** Stripping a piece made of word characters leaves word characters,
      with no white space at either end. */
  lemma StrippedWordPiece(p: string, isWord: char -> bool)
    requires forall c :: 0 <= c < |p| ==> isWord(p[c])
    ensures forall c :: 0 <= c < |Strip(p)| ==> isWord(Strip(p)[c])
    ensures Strip(p) != "" ==> !IsSpace(Strip(p)[0]) && !IsSpace(Strip(p)[|Strip(p)| - 1])
  {
    var i, j := StripSpec(p);
    forall c | 0 <= c < |Strip(p)| ensures isWord(Strip(p)[c]) {
      assert Strip(p)[c] == p[i + c];
    }
  }

  lemma {:induction false} RendersMember(items: seq<Atom>, t: string)
    ensures t in Renders(items) <==> exists k :: 0 <= k < |items| && Render(items[k]) == t
    decreases |items|
  {
    if items != [] {
      var init := items[..|items| - 1];
      RendersMember(init, t);
      if exists k :: 0 <= k < |items| && Render(items[k]) == t {
        var k :| 0 <= k < |items| && Render(items[k]) == t;
        if k < |items| - 1 {
          assert init[k] == items[k];
        }
      }
      if exists k :: 0 <= k < |init| && Render(init[k]) == t {
        var k :| 0 <= k < |init| && Render(init[k]) == t;
        assert items[k] == init[k];
      }
    }
  }

  /** An iterable cell contributes `str(t)` of each element as it is:
      nothing is trimmed and an empty element gives the empty tag. A cell
      that cannot be iterated contributes its own `str(...)`. */
  lemma NonStringContribution(tags: Tags, isWord: char -> bool, t: string)
    requires tags.Lst? || tags.Other?
    ensures tags.Lst? ==> (t in Contribution(tags, isWord) <==>
              exists k :: 0 <= k < |tags.items| && Render(tags.items[k]) == t)
    ensures tags.Other? ==> Contribution(tags, isWord) == {tags.repr}
  {
    if tags.Lst? {
      RendersMember(tags.items, t);
    }
  }

  /** A token is in the union exactly when some row contributes it. */
  lemma {:induction false} TagSetMember(rows: seq<Dish>, isWord: char -> bool, t: string)
    ensures t in TagSetOf(rows, isWord) <==>
              exists i :: 0 <= i < |rows| && t in Contribution(rows[i].tags, isWord)
    decreases |rows|
  {
    if rows != [] {
      var init := rows[..|rows| - 1];
      TagSetMember(init, isWord, t);
      if exists i :: 0 <= i < |rows| && t in Contribution(rows[i].tags, isWord) {
        var i :| 0 <= i < |rows| && t in Contribution(rows[i].tags, isWord);
        if i < |rows| - 1 {
          assert init[i] == rows[i];
        }
      }
      if exists i :: 0 <= i < |init| && t in Contribution(init[i].tags, isWord) {
        var i :| 0 <= i < |init| && t in Contribution(init[i].tags, isWord);
        assert rows[i] == init[i];
      }
    }
  }

  /** Rows whose `tags` is `None` make no difference to the vocabulary:
      dropping them all leaves the union unchanged. */
  lemma {:induction false} NullRowsIgnored(rows: seq<Dish>, isWord: char -> bool)
    ensures TagSetOf(Filter(rows, HasTagsValue), isWord) == TagSetOf(rows, isWord)
    decreases |rows|
  {
    if rows != [] {
      var init, last := rows[..|rows| - 1], rows[|rows| - 1];
      NullRowsIgnored(init, isWord);
      if HasTagsValue(last) {
        var f := Filter(init, HasTagsValue) + [last];
        assert f[..|f| - 1] == Filter(init, HasTagsValue);
      } else {
        assert Filter(rows, HasTagsValue) == Filter(init, HasTagsValue);
        assert Contribution(last.tags, isWord) == {};
      }
    }
  }

  /** The row's `tags` cell is not `None`. */
  predicate HasTagsValue(d: Dish) {
    !d.tags.Null?
  }

  /** The example of a string cell "辣,下饭" and a list cell ["下饭", "家常"]:
      the vocabulary is {"辣", "下饭", "家常"}, the shared tag once. */
  lemma MixedCellsExample(isWord: char -> bool, fields: map<string, string>)
    requires isWord('辣') && isWord('下') && isWord('饭') && !isWord(',')
    ensures TagSetOf([Dish(Str("辣,下饭"), fields), Dish(Lst([AStr("下饭"), AStr("家常")]), fields)], isWord)
            == {"辣", "下饭", "家常"}
  {
    var s := "辣,下饭";
    StringCellExample(isWord);
    var items := [AStr("下饭"), AStr("家常")];
    assert items[..1] == [AStr("下饭")] && items[..1][..0] == [];
    assert Renders(items) == {"下饭", "家常"};
    var rows := [Dish(Str(s), fields), Dish(Lst([AStr("下饭"), AStr("家常")]), fields)];
    assert rows[..1][..0] == [];
    assert TagSetOf(rows[..1], isWord) == {"辣", "下饭"};
  }

  /** No CJK unified ideograph is white space. */
  lemma IdeographNotSpace(c: char)
    requires '\U{4e00}' <= c <= '\U{9fff}'
    ensures !IsSpace(c)
  {
  }

  /** The string cell "辣,下饭" splits at the comma into "辣" and "下饭". */
  lemma StringCellExample(isWord: char -> bool)
    requires isWord('辣') && isWord('下') && isWord('饭') && !isWord(',')
    ensures Contribution(Str("辣,下饭"), isWord) == {"辣", "下饭"}
  {
    var s := "辣,下饭";
    assert s[1..] == ",下饭" && ",下饭"[1..] == "下饭" && "下饭"[1..] == "饭" && "饭"[1..] == "";
    assert "下" + ["饭"[0]] == "下饭" && "" + ["下饭"[0]] == "下" && "" + [s[0]] == "辣";
    assert DropSeparators("下饭", isWord) == "下饭";
    assert DropSeparators(",下饭", isWord) == "下饭";
    assert SplitFrom("", "下饭", isWord) == ["下饭"];
    assert SplitFrom("饭", "下", isWord) == ["下饭"];
    assert SplitFrom("下饭", "", isWord) == ["下饭"];
    assert SplitFrom(",下饭", "辣", isWord) == ["辣", "下饭"];
    assert SplitNonWord(s, isWord) == ["辣", "下饭"];
    IdeographNotSpace('辣');
    IdeographNotSpace('下');
    IdeographNotSpace('饭');
    assert forall k :: 0 <= k < |"下饭"| ==> "下饭"[k] == '下' || "下饭"[k] == '饭';
    StripNoSpace("辣");
    StripNoSpace("下饭");
    var parts := ["辣", "下饭"];
    assert parts[..1] == ["辣"] && parts[..1][..0] == [];
    assert Pieces(parts[..1][..0]) == {};
    assert Pieces(parts[..1]) == {"辣"};
    assert Pieces(parts) == {"辣", "下饭"};
  }

  // ---------------------------------------------------------------------
  // The popup filter

  /** `(prefix or '').strip()`. */
  function Query(prefix: Option<string>): string {
    if prefix.Some? then Strip(prefix.value) else ""
  }

  /** The popup keeps a tag when the query is empty or the lower-cased query
      occurs in the lower-cased tag. `lower` is `str.lower`. */
  function Keeps(query: string, lower: string -> string): string -> bool {
    t => query == "" || Contains(lower(t), lower(query))
  }

  /** What `_show_tag_popup(prefix)` lists: the entries of the tag list it
      keeps, in list order. */
  function Suggestions(tagList: seq<string>, prefix: Option<string>, lower: string -> string): seq<string> {
    Filter(tagList, Keeps(Query(prefix), lower))
  }

  /** The listed entries are taken from the tag list in its order, each
      contains the (trimmed, lower-cased) query, and every entry that does is
      listed; an empty or `None` query lists the whole tag list; a sorted
      tag list gives a sorted listing. */
  lemma SuggestionsSpec(tagList: seq<string>, prefix: Option<string>, lower: string -> string)
    ensures IsSubseq(Suggestions(tagList, prefix, lower), tagList)
    ensures forall t :: t in Suggestions(tagList, prefix, lower) ==>
              Query(prefix) == "" || Contains(lower(t), lower(Query(prefix)))
    ensures forall t :: (Query(prefix) == "" || Contains(lower(t), lower(Query(prefix)))) ==>
              multiset(Suggestions(tagList, prefix, lower))[t] == multiset(tagList)[t]
    ensures Query(prefix) == "" ==> Suggestions(tagList, prefix, lower) == tagList
    ensures StrictlySorted(tagList) ==> StrictlySorted(Suggestions(tagList, prefix, lower))
  {
    var keep := Keeps(Query(prefix), lower);
    FilterIsSubseq(tagList, keep);
    FilterSatisfies(tagList, keep);
    FilterCount(tagList, keep);
    if Query(prefix) == "" {
      FilterKeepsAll(tagList, keep);
    }
    if StrictlySorted(tagList) {
      SubseqSorted(Suggestions(tagList, prefix, lower), tagList);
    }
  }

  /** A subsequence of a strictly sorted sequence is strictly sorted. */
  lemma {:induction false} SubseqSorted(a: seq<string>, b: seq<string>)
    requires IsSubseq(a, b) && StrictlySorted(b)
    ensures StrictlySorted(a)
    decreases |b|
  {
    if a != [] && b != [] {
      var b' := b[..|b| - 1];
      assert StrictlySorted(b');
      if a[|a| - 1] == b[|b| - 1] && IsSubseq(a[..|a| - 1], b') {
        var a' := a[..|a| - 1];
        SubseqSorted(a', b');
        SubseqElements(a', b');
        forall i | 0 <= i < |a'| ensures StrLess(a[i], a[|a| - 1]) {
          assert a[i] == a'[i] && a'[i] in b';
          var k :| 0 <= k < |b'| && b'[k] == a'[i];
          assert b[k] == a[i];
        }
      } else {
        SubseqSorted(a, b');
      }
    }
  }

  // ---------------------------------------------------------------------
  // The background image search

  const BackgroundFile := "background.png"

  /** The directories the window constructor tries for `background.png`:
      when frozen, `_MEIPASS` (if truthy) then the executable's directory;
      otherwise the script directory, even if empty; the working directory
      last. */
  function BackgroundCandidates(env: Env): (c: seq<string>)
    requires env.frozen || env.scriptDir.Some?
    ensures |c| == (if env.frozen && Truthy(env.meipass) then 3 else 2)
    ensures c[|c| - 1] == env.cwd
    ensures env.frozen && Truthy(env.meipass) ==> c[0] == env.meipass.value && c[1] == env.exeDir
    ensures env.frozen && !Truthy(env.meipass) ==> c[0] == env.exeDir
    ensures !env.frozen ==> c[0] == env.scriptDir.value
  {
    (if env.frozen then (if Truthy(env.meipass) then [env.meipass.value] else []) + [env.exeDir]
     else [env.scriptDir.value])
    + [env.cwd]
  }

  /** The `_bg_path` the window constructor computes: the first candidate
      holding `background.png`, else the script-directory path whether or not
      it exists. `os.path.dirname(__file__)` raises `NameError` when
      `__file__` is undefined: at once when not frozen, and in the fallback
      when frozen. A path that is computed is never empty. */
  method FindBackground(env: Env, files: set<string>) returns (r: Result<string>)
    ensures !env.frozen && env.scriptDir.None? ==> r == Err(NameError)
    ensures env.frozen || env.scriptDir.Some? ==>
      && (forall i :: FirstHitAt(BackgroundCandidates(env), files, env.cwd, BackgroundFile, i) ==>
            r == Ok(Join(BackgroundCandidates(env)[i], BackgroundFile)))
      && (NoHit(BackgroundCandidates(env), files, env.cwd, BackgroundFile) ==>
            r == if env.scriptDir.Some? then Ok(Join(env.scriptDir.value, BackgroundFile)) else Err(NameError))
    ensures r.Ok? ==> r.value != ""
  {
    var candidates: seq<string> := [];
    if env.frozen {
      var meipass := env.meipass;
      if meipass.Some? && meipass.value != "" {
        candidates := candidates + [meipass.value];
      }
      candidates := candidates + [env.exeDir];
    } else {
      if env.scriptDir.None? {
        return Err(NameError);
      }
      candidates := candidates + [env.scriptDir.value];
    }
    candidates := candidates + [env.cwd];
    assert candidates == BackgroundCandidates(env);

    var found := FirstExisting(candidates, files, env.cwd, BackgroundFile);
    if found.None? {
      if env.scriptDir.None? {
        return Err(NameError);
      }
      return Ok(Join(env.scriptDir.value, BackgroundFile));
    }
    return Ok(found.value);
  }

  // ---------------------------------------------------------------------
  // The window's data state

  /** The part of `QueshiWindow` the catalog logic reads and writes: the
      current table (`None` until one is loaded) and the sorted tag list.
      `isWord` is the `\w` classification the tag splitting uses. */
  class QueshiWindow {
    const isWord: char -> bool
    var checkpoint: Option<Catalog>
    var tagList: seq<string>

    /** The window's invariant: the tag list is the vocabulary of the
        current table, sorted and without duplicates. */
    ghost predicate Valid()
      reads this
    {
      StrictlySorted(tagList)
      && forall t :: t in tagList <==> t in VocabularySet(checkpoint, isWord)
    }

    /** `__init__` as far as the table is concerned: `checkpoint` starts as
        `None`; `load_data` stores what `load_dishes` returned (`loaded`,
        `None` when it raised) and rebuilds the tag list; then the tag list
        is rebuilt once more. */
    constructor (isWord: char -> bool, loaded: Option<Catalog>)
      ensures this.isWord == isWord
      ensures checkpoint == loaded
      ensures Valid()
    {
      this.isWord := isWord;
      checkpoint := None;
      tagList := [];
      new;
      if loaded.Some? {
        checkpoint := loaded;
        UpdateTagCompleter();
      }
      UpdateTagCompleter();
    }

    /** `_update_tag_completer`: rebuilds `_tag_list` as the sorted,
        duplicate-free vocabulary of the current table. */
    method UpdateTagCompleter()
      modifies this`tagList
      ensures Valid()
      ensures |tagList| == |VocabularySet(checkpoint, isWord)|
    {
      var tags: seq<string>;
      if checkpoint.None? || |checkpoint.value.rows| == 0 {
        tags := [];
      } else {
        var frame := checkpoint.value;
        var tagsSet: set<string> := {};
        if frame.hasTagsColumn {
          var rows := frame.rows;
          for i := 0 to |rows|
            invariant tagsSet == TagSetOf(rows[..i], isWord)
          {
            assert rows[..i + 1][..i] == rows[..i];
            match rows[i].tags
            case Null =>
            case Str(s) =>
              var parts := SplitNonWord(s, isWord);
              ghost var before := tagsSet;
              for j := 0 to |parts|
                invariant tagsSet == before + Pieces(parts[..j])
              {
                assert parts[..j + 1][..j] == parts[..j];
                var p := Strip(parts[j]);
                if p != "" {
                  tagsSet := tagsSet + {p};
                }
              }
              assert parts[..|parts|] == parts;
            case Lst(items) =>
              ghost var before := tagsSet;
              for j := 0 to |items|
                invariant tagsSet == before + Renders(items[..j])
              {
                assert items[..j + 1][..j] == items[..j];
                tagsSet := tagsSet + {Render(items[j])};
              }
              assert items[..|items|] == items;
            case Other(repr) =>
              tagsSet := tagsSet + {repr};
          }
          assert rows[..|rows|] == rows;
        } else {
          // `self.checkpoint['tags']` raises KeyError; the handler resets the set.
          tagsSet := {};
        }
        tags := SortSet(tagsSet);
      }
      tagList := tags;
    }

    /** `load_data` / `on_load` after a successful load: the new table
        replaces the old one and the tag list is rebuilt from it. */
    method SetCatalog(c: Catalog)
      modifies this`checkpoint, this`tagList
      ensures checkpoint == Some(c)
      ensures Valid()
    {
      checkpoint := Some(c);
      UpdateTagCompleter();
    }

    /** `_show_tag_popup(prefix)`: the items added to the popup, and whether
        it is shown (it is hidden when nothing matched). In a valid window
        the listing is sorted. */
    method ShowTagPopup(prefix: Option<string>, lower: string -> string)
      returns (items: seq<string>, shown: bool)
      ensures items == Suggestions(tagList, prefix, lower)
      ensures shown <==> items != []
      ensures Valid() ==> StrictlySorted(items)
    {
      var keep := Keeps(Query(prefix), lower);  // not query or query.lower() in t.lower()
      var tags := tagList;
      items := [];
      for i := 0 to |tags|
        invariant items == Filter(tags[..i], keep)
      {
        var t := tags[i];
        assert Filter(tags[..i + 1], keep) == Filter(tags[..i], keep) + (if keep(t) then [t] else []) by {
          assert tags[..i + 1] == tags[..i] + [t];
          FilterSnoc(tags[..i], keep, t);
        }
        if keep(t) {
          items := items + [t];
        }
      }
      assert tags[..|tags|] == tags;
      SuggestionsSpec(tags, prefix, lower);
      shown := |items| != 0;
    }
  }
}
