/** queshi.py: locating `dishes.txt`, the load fallback, and `search_by_tag`.
    A loaded catalog is a table of dishes whose `tags` cell may be a string,
    a list, `None` or some other Python value. */
module Queshi {
  import opened Base
  import opened Seqs
  import opened Text
  import opened Paths

  /** One element of an iterable `tags` cell. `repr` is what `str(t)`
      renders for a non-string element. */
  datatype Atom = AStr(s: string) | AOther(repr: string)

  /** The Python value in a row's `tags` cell. `Lst` stands for any iterable
      whose `in` tests membership among the elements it yields (list, tuple,
      set, the keys of a dict); `Other` for a value on which both `in` and
      iteration raise `TypeError` (a number, the `NaN` pandas puts in a row
      that has no `tags` key), with `repr` its `str(...)`. */
  datatype Tags = Null | Str(s: string) | Lst(items: seq<Atom>) | Other(repr: string)

  /** A row of the catalog; `fields` are the other columns (name, price, ...)
      passed through unread. */
  datatype Dish = Dish(tags: Tags, fields: map<string, string>)

  /** A DataFrame built from the `dishes` list: its rows in source order, and
      whether it has a `tags` column at all (an empty `pd.DataFrame()` has
      none). */
  datatype Catalog = Catalog(hasTagsColumn: bool, rows: seq<Dish>)

  /** The DataFrame `load_dishes` returns when no data file is found. */
  const EmptyFrame := Catalog(false, [])

  const DishesFile := "dishes.txt"

  // ---------------------------------------------------------------------
  // _find_resource and load_dishes

  /** The directories `_find_resource` tries, in order: when frozen,
      `_MEIPASS` (if truthy) then the executable's directory; then the script
      directory (if truthy); the working directory always last. */
  function ResourceCandidates(env: Env): (c: seq<string>)
    ensures |c| == (if env.frozen then 1 else 0) + (if env.frozen && Truthy(env.meipass) then 1 else 0)
                   + (if Truthy(env.scriptDir) then 1 else 0) + 1
    ensures c[|c| - 1] == env.cwd
    ensures env.frozen && Truthy(env.meipass) ==> c[0] == env.meipass.value && c[1] == env.exeDir
    ensures env.frozen && !Truthy(env.meipass) ==> c[0] == env.exeDir
    ensures Truthy(env.scriptDir) ==> c[|c| - 2] == env.scriptDir.value
    ensures !env.frozen && !Truthy(env.scriptDir) ==> c == [env.cwd]
  {
    (if env.frozen then (if Truthy(env.meipass) then [env.meipass.value] else []) + [env.exeDir] else [])
    + (if Truthy(env.scriptDir) then [env.scriptDir.value] else [])
    + [env.cwd]
  }

  /** `_find_resource(name)`: the joined path of the first non-empty
      candidate under which `name` exists, or `None` when there is none. */
  method FindResource(env: Env, files: set<string>, name: string) returns (r: Option<string>)
    ensures forall i :: FirstHitAt(ResourceCandidates(env), files, env.cwd, name, i) ==>
              r == Some(Join(ResourceCandidates(env)[i], name))
    ensures r.None? <==> NoHit(ResourceCandidates(env), files, env.cwd, name)
    ensures r.Some? ==> Exists(files, env.cwd, r.value)
  {
    var candidates: seq<string> := [];
    if env.frozen {
      var meipass := env.meipass;
      if meipass.Some? && meipass.value != "" {
        candidates := candidates + [meipass.value];
      }
      candidates := candidates + [env.exeDir];
    }
    var scriptDir := env.scriptDir;
    if scriptDir.Some? && scriptDir.value != "" {
      candidates := candidates + [scriptDir.value];
    }
    candidates := candidates + [env.cwd];
    assert candidates == ResourceCandidates(env);
    r := FirstExisting(candidates, files, env.cwd, name);
  }

  /** What `load_dishes` does: read and execute the file at `path`, or
      return an empty DataFrame, which is `EmptyFrame`. */
  datatype LoadStep = ReadFile(path: string) | ReturnEmpty

  /** The table `load_dishes` returns after `step`: `read(path)` stands for
      reading and executing the file and building the DataFrame. */
  function Table(step: LoadStep, read: string -> Catalog): Catalog {
    match step
    case ReadFile(path) => read(path)
    case ReturnEmpty => EmptyFrame
  }

  /** `load_dishes()` up to the point where it opens the data file: the path
      `_find_resource` found, else the script-directory fallback if that
      exists, else an empty DataFrame (also when `__file__` is undefined). */
  method LoadDishes(env: Env, files: set<string>) returns (step: LoadStep)
    ensures forall i :: FirstHitAt(ResourceCandidates(env), files, env.cwd, DishesFile, i) ==>
              step == ReadFile(Join(ResourceCandidates(env)[i], DishesFile))
    ensures NoHit(ResourceCandidates(env), files, env.cwd, DishesFile) ==>
              step == (if env.scriptDir.Some? && Exists(files, env.cwd, Join(env.scriptDir.value, DishesFile))
                       then ReadFile(Join(env.scriptDir.value, DishesFile))
                       else ReturnEmpty)
    ensures step.ReadFile? ==> Exists(files, env.cwd, step.path)
  {
    var path := FindResource(env, files, DishesFile);
    if path.Some? {
      return ReadFile(path.value);
    }
    var scriptDir := env.scriptDir;
    if scriptDir.None? {
      return ReturnEmpty;
    }
    var fallback := Join(scriptDir.value, DishesFile);
    if !Exists(files, env.cwd, fallback) {
      return ReturnEmpty;
    }
    return ReadFile(fallback);
  }

  /** The fallback in `load_dishes` never finds a file that `_find_resource`
      missed: with an absolute working directory, the script-directory path
      is either itself a candidate or, when the script directory is empty,
      names the same file as the working-directory candidate. So
      `load_dishes` returns an empty DataFrame exactly when no candidate
      holds `dishes.txt`. */
  lemma FallbackRedundant(env: Env, files: set<string>)
    requires IsAbs(env.cwd)
    requires env.scriptDir.Some?
    requires NoHit(ResourceCandidates(env), files, env.cwd, DishesFile)
    ensures !Exists(files, env.cwd, Join(env.scriptDir.value, DishesFile))
  {
    var c := ResourceCandidates(env);
    var sd := env.scriptDir.value;
    if sd != "" {
      assert c[|c| - 2] == sd;
      assert !Hit(files, env.cwd, sd, DishesFile);
    } else {
      assert c[|c| - 1] == env.cwd;
      assert !Hit(files, env.cwd, env.cwd, DishesFile);
      assert Join(sd, DishesFile) == DishesFile;
      assert Resolve(env.cwd, Join(env.cwd, DishesFile)) == Join(env.cwd, DishesFile);
    }
  }

  /** With an absolute working directory, `load_dishes` returns the empty
      table whenever no candidate holds `dishes.txt`: the fallback cannot
      find it either. */
  lemma EmptyExactlyWhenNotFound(env: Env, files: set<string>, step: LoadStep)
    requires IsAbs(env.cwd)
    requires NoHit(ResourceCandidates(env), files, env.cwd, DishesFile)
    requires step == (if env.scriptDir.Some? && Exists(files, env.cwd, Join(env.scriptDir.value, DishesFile))
                      then ReadFile(Join(env.scriptDir.value, DishesFile))
                      else ReturnEmpty)
    ensures step == ReturnEmpty
  {
    if env.scriptDir.Some? {
      FallbackRedundant(env, files);
    }
  }

  // ---------------------------------------------------------------------
  // search_by_tag

  /** `has_tag(tags)`, i.e. `tag in tags` with any exception read as False:
      substring containment for a string, element equality for an iterable
      (only a `str` element equals the `str` tag), False for `None` and for
      values on which `in` raises. */
  predicate HasTag(tag: string, tags: Tags) {
    match tags
    case Str(s) => Contains(s, tag)
    case Lst(items) => AStr(tag) in items
    case Null => false
    case Other(_) => false
  }

  /** `has_tag` lifted to a row, as `checkpoint['tags'].apply(has_tag)`. */
  function RowHasTag(tag: string): Dish -> bool {
    (d: Dish) => HasTag(tag, d.tags)
  }

  /** The meaning of `has_tag` for each kind of `tags` cell. */
  lemma HasTagMeaning(tag: string, tags: Tags)
    ensures tags.Str? ==> (HasTag(tag, tags) <==> exists i :: OccursAt(tag, tags.s, i))
    ensures tags.Lst? ==> (HasTag(tag, tags) <==> exists k :: 0 <= k < |tags.items| && tags.items[k] == AStr(tag))
    ensures tags.Null? || tags.Other? ==> !HasTag(tag, tags)
  {
    if tags.Str? {
      ContainsIffOccurs(tags.s, tag);
    }
  }

  /** `search_by_tag(tag, checkpoint)`. A `None` checkpoint is replaced by the
      result of `load_dishes()`, given here as `loaded`. Indexing the `tags`
      column raises `KeyError` when the table has no such column (as for the
      empty DataFrame); otherwise the result is the table restricted to the
      rows where `has_tag` holds, in their original order. On a table with
      no rows, `apply` yields an empty mask that is not boolean, so pandas
      reads it as a list of column labels and the result has no columns at
      all; it keeps its `tags` column only when the table had rows. */
  function SearchByTag(tag: string, checkpoint: Option<Catalog>, loaded: Catalog): (r: Result<Catalog>)
    ensures var c := if checkpoint.Some? then checkpoint.value else loaded;
      && (r.Err? <==> !c.hasTagsColumn)
      && (r.Err? ==> r.error == KeyError)
      && (r.Ok? ==> (r.value.hasTagsColumn <==> |c.rows| > 0))
      && (r.Ok? ==> IsSubseq(r.value.rows, c.rows))
      && (r.Ok? ==> forall d :: d in r.value.rows ==> HasTag(tag, d.tags) && (d.tags.Str? || d.tags.Lst?))
      && (r.Ok? ==> forall d: Dish :: HasTag(tag, d.tags) ==> multiset(r.value.rows)[d] == multiset(c.rows)[d])
  {
    var c := if checkpoint.Some? then checkpoint.value else loaded;
    if !c.hasTagsColumn then Err(KeyError)
    else
      FilterIsSubseq(c.rows, RowHasTag(tag));
      FilterSatisfies(c.rows, RowHasTag(tag));
      FilterCount(c.rows, RowHasTag(tag));
      Ok(Catalog(|c.rows| > 0, Filter(c.rows, RowHasTag(tag))))
  }

  /** Searching a search result that still has its `tags` column again for
      the same tag finds the same rows: `search_by_tag` keeps no state
      between calls. A result with rows comes back unchanged; an empty
      result loses its columns once searched again (see
      `EmptyResultLosesTags`). */
  lemma {:induction false} SearchIdempotent(tag: string, checkpoint: Option<Catalog>, loaded: Catalog, other: Catalog)
    requires SearchByTag(tag, checkpoint, loaded).Ok?
    ensures SearchByTag(tag, checkpoint, loaded).value.hasTagsColumn ==>
              SearchByTag(tag, Some(SearchByTag(tag, checkpoint, loaded).value), other).Ok?
              && SearchByTag(tag, Some(SearchByTag(tag, checkpoint, loaded).value), other).value.rows
                 == SearchByTag(tag, checkpoint, loaded).value.rows
    ensures |SearchByTag(tag, checkpoint, loaded).value.rows| > 0 ==>
              SearchByTag(tag, Some(SearchByTag(tag, checkpoint, loaded).value), other)
              == SearchByTag(tag, checkpoint, loaded)
  {
    var c := if checkpoint.Some? then checkpoint.value else loaded;
    FilterIdempotent(c.rows, RowHasTag(tag));
  }

  /** A search that matches no row of a non-empty table returns a table with
      a `tags` column and no rows; searching that again returns a table with
      no columns, and a third search raises `KeyError`. */
  lemma EmptyResultLosesTags(tag: string, c: Catalog)
    requires c.hasTagsColumn && |c.rows| > 0
    requires forall d :: d in c.rows ==> !HasTag(tag, d.tags)
    ensures SearchByTag(tag, Some(c), c) == Ok(Catalog(true, []))
    ensures SearchByTag(tag, Some(Catalog(true, [])), c) == Ok(Catalog(false, []))
    ensures SearchByTag(tag, Some(Catalog(false, [])), c) == Err(KeyError)
  {
    var found := Filter(c.rows, RowHasTag(tag));
    FilterIsSubseq(c.rows, RowHasTag(tag));
    FilterSatisfies(c.rows, RowHasTag(tag));
    SubseqElements(found, c.rows);
  }

  /** A row whose `tags` is `None` never appears in a search result, whatever
      the tag, though it stays in the catalog. */
  lemma NullRowsNeverFound(tag: string, c: Catalog, d: Dish)
    requires d.tags.Null?
    ensures SearchByTag(tag, Some(c), c).Ok? ==> d !in SearchByTag(tag, Some(c), c).value.rows
  {
  }

  /** When `load_dishes` finds no data file it returns `EmptyFrame`, which
      has no `tags` column, so a search of that table raises `KeyError`. */
  lemma EmptyLoadSearch(tag: string, checkpoint: Option<Catalog>)
    requires checkpoint.None? || checkpoint == Some(EmptyFrame)
    ensures SearchByTag(tag, checkpoint, EmptyFrame) == Err(KeyError)
  {
  }

  /** `search_by_tag(tag, checkpoint)` with the `load_dishes()` call for a
      `None` checkpoint carried out: with no data file anywhere, the search
      raises `KeyError`. */
  method SearchByTagLoading(tag: string, checkpoint: Option<Catalog>, env: Env, files: set<string>,
                            read: string -> Catalog)
    returns (r: Result<Catalog>)
    ensures checkpoint.Some? ==> r == SearchByTag(tag, checkpoint, EmptyFrame)
    ensures checkpoint.None? ==>
              forall i :: FirstHitAt(ResourceCandidates(env), files, env.cwd, DishesFile, i) ==>
                r == SearchByTag(tag, None, read(Join(ResourceCandidates(env)[i], DishesFile)))
    ensures checkpoint.None? && NoHit(ResourceCandidates(env), files, env.cwd, DishesFile)
            && (env.scriptDir.None? || !Exists(files, env.cwd, Join(env.scriptDir.value, DishesFile))) ==>
              r == Err(KeyError)
  {
    var c: Catalog;
    if checkpoint.None? {
      var step := LoadDishes(env, files);
      c := Table(step, read);
    } else {
      c := checkpoint.value;
    }
    r := SearchByTag(tag, Some(c), c);
  }
}
