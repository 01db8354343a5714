# Photo dashboard catalog — a Dafny model

The photo dashboard is a single Streamlit page over a photo root directory. Every
immediate, non-hidden subdirectory of the root is a *village*. The page lists the
villages sorted case-insensitively and filters them with a search box. For the
chosen village it shows the image files (by extension allow-list) sorted by
lower-cased name and then modification time, on a grid of four columns.

This project models the decisions under that page as pure Dafny functions over a
snapshot of the file system, and proves what they promise:

- `Text` holds the string primitives the page relies on: `str.lower()` on ASCII
  letters, `str.strip()` with Python's whitespace set, Python's `<` on strings,
  and the substring test `needle in hay`.
- `Paths` holds pathlib's final component (`name`) and `suffix` of a POSIX path,
  the eight allowed extensions, and `is_allowed`.
- `Catalog` holds directory entries (`Entry`: name, `is_dir()`, `is_file()`,
  modification time), a folder snapshot (`Folder`: whether it exists, its direct
  children), list comprehensions as `Filter`, `sorted(..., key=...)` as a stable
  insertion sort, `villages()` and `list_images()`.
- `Dashboard` holds the search filter, the column rule `i % 4` with the grid the
  render loop builds, and one run of the page as a pure function `Render`.

Each operation is paired with an independent statement of what it must do. The
sort is paired with sortedness and permutation lemmas. The substring scan is paired
with "occurs at some position". `strip` is paired with the unique slice that has
whitespace-only margins. The suffix test is paired with "a non-empty stem followed
by an allowed extension". The grid is paired with the explicit position of image
`i`: column `i % 4`, row `i / 4`.

## Model

| member | source | states |
|---|---|---|
| Text.Lower | code.py:18 | lower-casing keeps the length and maps each character by itself (ASCII letters to lower case) |
| Text.LowerIsLower | code.py:18 | a lower-cased string has no upper-case ASCII letter, and lower-casing twice is lower-casing once |
| Text.LowerKeepsPunctuation | code.py:18 | lower-casing neither creates nor removes a dot or a slash, so it does not move the suffix |
| Text.IsSpace | code.py:39 | the characters `str.strip()` removes: ASCII whitespace and separators and the Unicode spaces; used by StripLeft, StripRight and Strip |
| Text.StripLeft | code.py:39 | the result is the suffix starting at the first non-whitespace character; everything before it is whitespace |
| Text.StripRight | code.py:39 | the result is the prefix ending at the last non-whitespace character; everything after it is whitespace |
| Text.Strip | code.py:39 | `str.strip()`: the result is no longer than the input and starts and ends with non-whitespace; StripBlank and StripIsTheTrimmedSlice fix it on every input, StripIdempotent shows stripping twice is stripping once |
| Text.StripBlank | code.py:39 | text made only of whitespace strips to the empty string |
| Text.StripIsTheTrimmedSlice | code.py:39 | any slice with whitespace-only margins and non-whitespace ends is exactly what `strip()` returns |
| Text.StripIdempotent | code.py:39 | stripping twice is stripping once |
| Text.StrLt | code.py:22-23 | Python's `<` on the lower-cased names used as sort keys; StrLtIrreflexive, StrLtTransitive, StrLtTotal and StrLtAsymmetric show it is a strict total order |
| Text.StrLtIrreflexive | code.py:22-23 | no name sorts before itself |
| Text.StrLtTransitive | code.py:22-23 | the string order used as the sort key is transitive |
| Text.StrLtTotal | code.py:22-23 | any two different strings are ordered one way or the other |
| Text.StrLtAsymmetric | code.py:22-23 | two strings are never each smaller than the other |
| Text.Contains | code.py:43 | `query in name.lower()`; ContainsWitness, OccursContains and ContainsIff show it holds exactly when the query occurs at some position |
| Text.ContainsWitness | code.py:43 | when the substring test succeeds, the query occurs at some position |
| Text.OccursContains | code.py:43 | when the query occurs at some position, the substring test succeeds |
| Text.ContainsIff | code.py:43 | the substring test holds exactly when the query occurs somewhere in the name |
| Paths.LastIndexOf | code.py:18 | the result is the last index holding the character, or -1 when none does |
| Paths.BaseName | code.py:18 | the final component of a path contains no slash and is never `.` |
| Paths.BaseNameOfComponent | code.py:18 | a plain file name is its own final component |
| Paths.BaseNameOfPath | code.py:18 | the name of a path is the plain component after its last slash (`photos/a.jpg` names `a.jpg`) |
| Paths.Suffix | code.py:18 | the suffix is empty or a tail of the name that starts with its only dot, shorter than the name |
| Paths.IsAllowed | code.py:17-18 | `is_allowed`: the lower-cased suffix of the final component is one of the eight extensions; IsAllowedIff characterises it, AllowedByExtension, RefusedByExtension and RefusedBareExtension give its cases |
| Paths.AllowedExtsShape | code.py:13 | each allowed extension is a dot followed by dot-free, slash-free text |
| Paths.IsAllowedIff | code.py:17-18 | a name is allowed exactly when its final component is a non-empty stem followed by a tail that lower-cases to an allowed extension |
| Paths.TailIsSuffix | code.py:18 | a tail that lower-cases to an allowed extension is the name's suffix |
| Paths.AllowedByExtension | code.py:13-18 | any non-empty stem followed by an allowed extension in any letter case (`A.JPG`, `b.jpeg`) is allowed |
| Paths.LastDotAt | code.py:18 | a dot with no dot after it is where `rfind` stops |
| Paths.SuffixOfStemAndExtension | code.py:18 | a non-empty stem followed by a dot-led, dot-free extension has that extension as its suffix |
| Paths.RefusedByExtension | code.py:17-18 | a name whose last extension is not allowed is refused, whatever comes before it (`c.txt`, `x.jpg.txt`) |
| Paths.NoSuffixRefused | code.py:17-18 | a name without a suffix is refused |
| Paths.NoSuffixAfterLeadingDot | code.py:18 | a leading dot followed by dot-free text gives no suffix |
| Paths.RefusedBareExtension | code.py:17-18 | a hidden file made of a dot and an extension only (`.jpg`) is refused |
| Paths.AllowedUpperJpg | code.py:13-18 | `A.JPG` is allowed |
| Paths.AllowedLowerJpeg | code.py:13-18 | `b.jpeg` is allowed |
| Paths.RefusedTxt | code.py:13-18 | `c.txt` is refused |
| Paths.RefusedDoubleExtension | code.py:13-18 | `x.jpg.txt` is refused, because only the last extension counts |
| Catalog.Filter | code.py:22 | a list comprehension with a condition (also at code.py:29 and code.py:43); FilterCounts, FilterMembers, FilterIsSubsequence and FilterIdempotent specify it |
| Catalog.FilterCounts | code.py:22 | a comprehension keeps each passing element as often as the input holds it, and drops each failing one |
| Catalog.FilterMembers | code.py:22 | an element is in the comprehension's result exactly when it is in the input and passes the test |
| Catalog.FilterIsSubsequence | code.py:43 | a comprehension keeps the input's order |
| Catalog.SubsequenceOfItself | code.py:42-43 | a list is an order-preserving subsequence of itself (the unfiltered case) |
| Catalog.FilterIdempotent | code.py:43 | filtering an already filtered list again changes nothing |
| Catalog.KeyLtAsymmetric | code.py:22-30 | two entries are never each to be placed before the other |
| Catalog.KeyLeTotal | code.py:22-30 | any two entries can be placed in some order |
| Catalog.KeyLeTransitive | code.py:22-30 | "may come before" is transitive for the name key and for the (name, mtime) key |
| Catalog.Insert | code.py:22-30 | one step of `sorted`: puts an entry before the first entry whose key is not smaller; InsertCounts and InsertSorted specify it |
| Catalog.InsertCounts | code.py:22-30 | inserting adds exactly the inserted entry |
| Catalog.ConsSorted | code.py:22-30 | an entry that may precede every entry of a sorted list may go in front of it |
| Catalog.InsertSorted | code.py:22-30 | inserting into a sorted list keeps it sorted |
| Catalog.Sort | code.py:22-30 | `sorted(..., key=...)` as a stable insertion sort; SortPermutes and SortSorted show it returns a sorted permutation |
| Catalog.SortPermutes | code.py:22-30 | `sorted` returns a permutation of its input |
| Catalog.SortSorted | code.py:22-30 | `sorted` returns its input in non-decreasing key order |
| Catalog.IsVillage | code.py:22 | the condition `p.is_dir() and not p.name.startswith(".")`; VillagesSelect shows it decides what `villages()` lists |
| Catalog.IsImage | code.py:29 | the condition `p.is_file() and p.suffix.lower() in ALLOWED_EXTS`; ImageTestIsAllowed ties it to `is_allowed`, ListImagesSelect shows it decides what `list_images()` lists |
| Catalog.ImageTestIsAllowed | code.py:17-29 | on a plain entry name the listing's own suffix test agrees with `is_allowed` |
| Catalog.Villages | code.py:20-23 | `villages()` over a snapshot of the root; VillagesSelect, VillagesSorted and VillagesExample specify it |
| Catalog.VillagesSelect | code.py:20-23 | every listed village is a non-hidden directory of the root; every such directory is listed, as often as it occurs |
| Catalog.VillagesSorted | code.py:22-23 | villages are listed in non-decreasing order of lower-cased name |
| Catalog.VillagesExample | code.py:20-23 | of `beta`, a hidden directory, a file and `Alpha`, the listing is `Alpha, beta` |
| Catalog.ListImages | code.py:25-30 | `list_images(folder)` with recursion off; ListImagesMissing, ListImagesSelect, ListImagesSorted and ListImagesExample specify it |
| Catalog.ListImagesMissing | code.py:26-27 | a folder that does not exist lists no images |
| Catalog.ListImagesSelect | code.py:25-29 | every listed image is a regular file whose lower-cased suffix is allowed; every such direct child is listed, as often as it occurs |
| Catalog.ListImagesSorted | code.py:30 | images are listed by lower-cased name, and among equal names by modification time |
| Catalog.ListImagesExample | code.py:25-30 | of `b.png`, `A.JPG` and a refused file, the listing is `A.JPG, b.png` |
| Dashboard.Query | code.py:39 | the search text stripped, then lower-cased; SearchBlank shows whitespace-only text gives the empty query |
| Dashboard.NameContains | code.py:43 | the test `search in v.name.lower()`; SearchSelect ties it to the query occurring in the name |
| Dashboard.SearchFilter | code.py:42-43 | the search: all villages for an empty query, otherwise those whose name contains it; SearchBlank, SearchKeepsOrder, SearchSelect and SearchIdempotent specify it |
| Dashboard.SearchBlank | code.py:39-42 | a search text of whitespace only leaves the village list unchanged |
| Dashboard.SearchKeepsOrder | code.py:42-43 | the searched list is an order-preserving subsequence of the village list |
| Dashboard.SearchSelect | code.py:39-43 | a non-empty query keeps exactly the villages whose lower-cased name contains it, each as often as it was there |
| Dashboard.SearchIdempotent | code.py:39-43 | searching the result again with the same text changes nothing |
| Dashboard.Column | code.py:62 | the column is in 0..3 and differs from the image index by a multiple of four |
| Dashboard.ColumnExample | code.py:60-62 | images 0, 1, 2, 3, 4 go to columns 0, 1, 2, 3, 0 |
| Dashboard.Grid | code.py:60-63 | the render loop produces exactly four columns |
| Dashboard.GridColumns | code.py:60-63 | column `c` holds images `c`, `c+4`, `c+8`, ... in order and nothing else: `(n + 3 - c) / 4` of `n` images |
| Dashboard.GridPlacement | code.py:61-62 | image `i` is found in column `i % 4` at row `i / 4` |
| Dashboard.GridHoldsAll | code.py:60-63 | the four columns together hold as many images as the list |
| Dashboard.FolderOf | code.py:54 | the folder `PHOTOS_ROOT / selected` in the snapshot: present exactly when the map has the village's name; RenderSpec lists images from it |
| Dashboard.Render | code.py:41-63 | one run of the page: the warning, the empty-village notice or the grid; RenderSpec specifies it |
| Dashboard.RenderSpec | code.py:41-63 | the page warns exactly when no visible village matches the search; otherwise it shows a visible village of the root whose lower-cased name contains the query when the query is not empty, reported empty exactly when its folder lists no images and else laid out by `Grid` |

## Left out

- File system access: the root's `mkdir`, `iterdir`, `glob`, `exists`, `is_dir`, `is_file` and `stat`. They are replaced by snapshots: `Entry` lists for the root and for each village folder, and a map from village names to village folders for `PHOTOS_ROOT / selected`.
- The recursive listing with `rglob`: it is switched off by the configuration constant, so `ListImages` lists direct children only.
- All Streamlit calls: page setup, title, caption, header, text input, sidebar selector, columns, image, warning and info. `Render` returns which of the three outcomes the page shows, and the grid's contents.
- The village selector's choice is an external input. It is the parameter `pick`, a position in the searched list, and it must be in range when the list is not empty.
- A `stat` call that fails while listing images raises in the source and aborts the page. The model has no failing `stat`: every entry carries its modification time.
- Modification times are floats in the source. They are integers here, used only to order entries.
- Text.Lower: lower-cases ASCII letters only, not the full Unicode case mapping of `str.lower()`.
- Paths.BaseName: follows POSIX path rules with `/` as the only separator. The Windows flavour (backslashes, drive letters) of the configured root is not modelled.
- Paths.Suffix: follows pathlib up to Python 3.13, where a trailing dot gives no suffix. This makes no difference to the allow-list, since no allowed extension is a lone dot.
- Catalog.VillagesSorted: states the order of keys only. Which of two villages whose names differ only in case comes first depends on the enumeration order, which the source does not fix. The same holds for Catalog.ListImagesSorted with entries of equal name and time.
