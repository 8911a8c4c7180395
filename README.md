# Recipe catalog viewer: the data side, in Dafny

This project models the data logic of a small desktop viewer for a recipe
catalog (the "Touhou Mystia's Izakaya" dish dictionary). The catalog is a
table of dishes with a `tags` column. The viewer finds its data file and
background image in several candidate directories, filters dishes by tag,
builds a sorted tag vocabulary for autocompletion, and filters that
vocabulary as the user types. The Qt and pandas plumbing around this logic
is not modelled.

Modules, one per concern:

- `Base` (base.dfy): `Option`, `Result`, and the two Python exceptions that escape: `KeyError` and `NameError`.
- `Seqs` (seqs.dfy): order-preserving `Filter`, the subsequence relation, and their lemmas.
- `Text` (text.dfy): Python's `in` between strings, `str.strip()`, `re.split(r'\W+', s)`, code-point order, and `sorted()` on a set of strings.
- `Paths` (paths.dfy): the process facts both searches read, `os.path.join` and `os.path.exists`, and the first-existing-candidate scan.
- `Queshi` (queshi.dfy): `queshi.py`. It covers `_find_resource`, the `load_dishes` fallback, and `search_by_tag` with `has_tag`.
- `Window` (window.dfy): `gui_queshi.py`. It covers the vocabulary that `_update_tag_completer` stores in `_tag_list`, the filter in `_show_tag_popup`, the `background.png` search, and the class `QueshiWindow` holding the current table and tag list.

Abstractions:

- A `tags` cell is one of `Null`, `Str(s)`, `Lst(items)` (any iterable whose `in` is element membership) or `Other(repr)` (a value on which `in` and iteration raise, such as the `NaN` pandas stores for a row without a `tags` key).
- `str(...)` of a non-string value is carried in the value itself (`repr`).
- Which characters `\w` matches is a parameter `isWord` (a constant field of the window). `str.lower` is a parameter `lower`.
- The white space `str.strip()` removes is written out: the characters for which `str.isspace()` is true.
- The file system is the set of absolute paths that exist. A relative path is resolved against the working directory.
- The process is `Env`: `sys.frozen`, `sys._MEIPASS`, the executable's directory, the script directory (or `None` when `__file__` is undefined), and the working directory.

Behaviours of the code that the model keeps, although a reader of the user interface might expect otherwise:

- `search_by_tag` does substring matching on a string cell, not exact membership among normalised tokens. Searching for "饭" finds a dish tagged "下饭".
- Searching the empty table that `load_dishes` returns when no file is found raises `KeyError`, because that table has no `tags` column. It does not return an empty result.
- A search of a table that has a `tags` column but no rows returns a table with no columns at all. On zero rows `apply` gives an empty mask that is not boolean, and pandas reads it as a list of column labels. So a search that matches nothing keeps its `tags` column, searching that result again drops every column, and a third search raises `KeyError`.
- Elements of an iterable cell enter the vocabulary as `str(t)`, untrimmed and unfiltered. Only string cells are split, stripped and filtered for emptiness.
- The popup filter has no result cap. The 10-item limit belongs to Qt's completer.
- `_find_resource` also tries the script directory when frozen. The background search does not.

## Model

| member | source | states |
|---|---|---|
| `Queshi.ResourceCandidates` | queshi.py:12-27 | When frozen, `_MEIPASS` (if truthy) comes first and the executable's directory next. A truthy script directory is second to last. The working directory is always last. Not frozen and no script directory leaves only the working directory. |
| `Queshi.FindResource` | queshi.py:7-35 | Returns the joined path of the first non-empty candidate under which the name exists; no earlier candidate has it. Returns `None` exactly when no non-empty candidate has it. A returned path exists. |
| `Paths.Join` | queshi.py:32 | `os.path.join(d, name)`: the result is at least as long as `name`, and joining onto an absolute directory gives an absolute path. |
| `Paths.FirstExisting` | queshi.py:29-35 | The scan over candidates: skips empty directories and stops at the first joined path that exists. `None` iff no candidate is accepted. |
| `Queshi.LoadDishes` | queshi.py:38-53 | Reads from the path `_find_resource` found. Otherwise it reads the script-directory fallback if that exists. Otherwise, or when `__file__` is undefined, it returns an empty DataFrame rather than an error. Any path it reads exists. |
| `Queshi.FallbackRedundant` | queshi.py:44-53 | With an absolute working directory, the fallback path never exists when no candidate held the file. |
| `Queshi.EmptyExactlyWhenNotFound` | queshi.py:44-53 | With an absolute working directory, `load_dishes` returns the empty table whenever no candidate holds `dishes.txt`. Together with `LoadDishes`, which reads a file whenever a candidate holds it, the empty table comes back exactly when `_find_resource` returns `None`. |
| `Queshi.HasTagMeaning` | queshi.py:66-70 | For a string cell, `has_tag` is substring containment (the tag occurs at some index). For an iterable, it is equality with some element. For `None` and values on which `in` raises, it is False, never an error. |
| `Queshi.SearchByTag` | queshi.py:63-71 | `KeyError` exactly when the table has no `tags` column. Otherwise the result is a subsequence of the rows. Every row kept satisfies `has_tag` and has a string or iterable cell. Every row satisfying `has_tag` is kept as often as it occurs. The result keeps its `tags` column exactly when the searched table had rows. A `None` checkpoint stands for `load_dishes()`. |
| `Queshi.SearchIdempotent` | queshi.py:63-71 | Searching a result that still has its `tags` column again for the same tag finds the same rows. A result with rows comes back unchanged. The call keeps no state. |
| `Queshi.EmptyResultLosesTags` | queshi.py:71 | When no row of a non-empty table matches, the result has a `tags` column and no rows. Searching it again gives a table with no columns, and a third search raises `KeyError`. |
| `Queshi.SearchByTagLoading` | queshi.py:63-71 | `search_by_tag` with its `load_dishes()` call carried out for a `None` checkpoint. A given checkpoint is searched directly. The table read from the first candidate holding `dishes.txt` is searched if there is one. With no data file found, the search raises `KeyError`. |
| `Queshi.EmptyLoadSearch` | queshi.py:63-71 | Searching the empty DataFrame that `load_dishes` returns when it finds no file raises `KeyError`, whether that table is passed in or loaded because the checkpoint is `None`. |
| `Queshi.NullRowsNeverFound` | queshi.py:67-71 | A row whose `tags` is `None` is never in a search result. |
| `Text.ContainsIffOccurs` | queshi.py:68 | Python's `in` between two strings holds exactly when the needle occurs at some index of the haystack. |
| `Text.StripSpec` | gui_queshi.py:289 | `strip()` yields the slice left after removing white space from both ends only. The result neither starts nor ends with white space. |
| `Text.SplitNonWordSpec` | gui_queshi.py:287 | `re.split(r'\W+', s)` gives at least one piece. Every piece is made of word characters. Joined, the pieces are exactly the word characters of `s`. |
| `Text.SplitNonWordRoundTrip` | gui_queshi.py:287 | `re.split(r'\W+', s)` cuts `s` at maximal runs of non-word characters. There are separator runs, one fewer than the pieces, each non-empty and free of word characters. Put back between the pieces, they rebuild `s`. Only the first and the last piece can be empty. |
| `Text.SplitNonWordUnique` | gui_queshi.py:287 | Any such cut of `s` (word-character pieces, non-empty non-word separators, no empty inner piece, rebuilding `s`) is the list `re.split(r'\W+', s)` returns. Together with the round trip, this characterises the split independently of how it is computed. |
| `Text.SortSet` | gui_queshi.py:300 | `sorted(tags_set)`: strictly increasing in code-point order, holding exactly the set's members, one each. |
| `Text.SortedUnique` | gui_queshi.py:300 | Two strictly sorted lists with the same members are equal, so the stored tag list is determined by the set. |
| `Text.StrictlySortedDistinct` | gui_queshi.py:303 | The stored tag list has no duplicates. |
| `Window.StringContribution` | gui_queshi.py:286-291 | A string cell contributes exactly the stripped, non-empty pieces of its split on runs of non-word characters. Every contributed token is non-empty, has no white space at either end, and is made of word characters. |
| `Window.SplitContribution` | gui_queshi.py:286-291 | For any cut of a string cell at maximal non-word runs, the cell contributes exactly the non-empty stripped pieces of that cut. |
| `Window.NonStringContribution` | gui_queshi.py:292-297 | An iterable cell contributes `str(t)` of each element, not trimmed or filtered. A non-iterable value contributes `str(item)`. |
| `Window.TagSetMember` | gui_queshi.py:280-297 | A token is in the vocabulary set exactly when some row's cell contributes it. |
| `Window.NullRowsIgnored` | gui_queshi.py:283-284 | Dropping every row whose `tags` is `None` leaves the vocabulary unchanged. |
| `Window.MixedCellsExample` | gui_queshi.py:280-297 | Cells "辣,下饭" and ["下饭", "家常"] give exactly {"辣", "下饭", "家常"}, with the shared tag once. |
| `Window.QueshiWindow.constructor` | gui_queshi.py:122-231 | `__init__` as it concerns the data. The table starts as `None`. `load_data` stores what `load_dishes` returned, or leaves `None` when it raised. The tag list is then rebuilt. The new window holds that table, and its tag list is the table's sorted vocabulary (`Valid`). |
| `Window.QueshiWindow.UpdateTagCompleter` | gui_queshi.py:274-303 | Re-establishes the window invariant `Valid`: the stored tag list is strictly sorted, so it has no duplicates, and it holds exactly the vocabulary set, of which it has the size. The list is empty for a `None` or empty table, and for a table whose `tags` column is missing (the caught failure resets the set). |
| `Window.QueshiWindow.SetCatalog` | gui_queshi.py:536-561 | After a load, the new table replaces the old one and the tag list is rebuilt from it: sorted, and holding exactly the new vocabulary (`Valid`). |
| `Window.QueshiWindow.ShowTagPopup` | gui_queshi.py:358-371 | The listed items are the tag-list entries kept by the trimmed, lower-cased contains test, in list order. The popup is shown iff something is listed. In a window satisfying `Valid`, the listing is sorted. |
| `Window.SuggestionsSpec` | gui_queshi.py:364-368 | The listing is a subsequence of the tag list. Each item contains the lower-cased trimmed query, and every entry that does is listed. An empty or `None` query lists everything. A sorted tag list gives a sorted listing. |
| `Window.BackgroundCandidates` | gui_queshi.py:125-136 | When frozen: `_MEIPASS` (if truthy), then the executable's directory. Otherwise the script directory, even if empty. The working directory is always last. |
| `Window.FindBackground` | gui_queshi.py:125-152 | The first candidate holding `background.png` is chosen. Otherwise the path falls back to the script-directory path, so the result is never `None` or empty. A `NameError` occurs only when `__file__` is undefined and the script directory is needed. |

## Left out

- Reading and executing `dishes.txt` (`exec`) and building the DataFrame. `LoadDishes` stops at the path it would open. A table is given as its rows plus whether it has a `tags` column.
- `Queshi.LoadDishes`: does not model what happens after the file is opened, because that runs the file as code.
- `Queshi.SearchByTag`: the `load_dishes()` call for a `None` checkpoint is a parameter (`loaded`). `Queshi.SearchByTagLoading` carries the call out through `LoadDishes`, with reading and executing the file as a parameter `read`.
- Windows path rules (`ntpath`): `Join` follows POSIX `os.path.join`, and paths are not normalised.
- Unicode `\w` classification and `str.lower`: these are parameters, not Unicode tables.
- A `tags` value whose iteration raises part-way through (its earlier elements stay and `str(item)` is added), a `str()` that raises, and custom `__contains__`/`__eq__` methods.
- `Window.QueshiWindow.ShowTagPopup`: does not model the early return when the popup widget is `None`, its placement, or hiding. Widget creation is Qt work.
- All other Qt and UI work: `PandasModel`, `BackgroundWidget`, `QCompleter` configuration, `eventFilter`, `_on_entry_text_edited`, `on_search`/`menu_search`, dialogs, `set_background`, the opacity arithmetic (floating point), the tkinter `QueshiGUI` stub, and both `__main__` blocks.
- `Window.QueshiWindow.SetCatalog`: does not model the failure paths of `load_data`/`on_load`, which only set a status label or show a message box.
- `Window.QueshiWindow.constructor`: does not model the widget setup, and takes the result of `load_dishes()` as a parameter (`None` when it raised), because loading reads the file system and executes code. The `_bg_path` assignment is modelled by the value `FindBackground` returns. A `NameError` there aborts window construction.
