# Verified model of the site's manifest builders

The site is a static portfolio. Two Python scripts build its JSON
manifests from the files on disk:

- `tools/generate_cad_json_grouped.py` lists the PDFs in `docs/cad`. It
  groups them into CAD items by a key taken from the file name. Each item
  gets a slug, a title, a subtitle that counts its drawings, and one
  drawing entry (label and file) per PDF.
- `tools/generate_gallery_json.py` scans the three section folders under
  `images/` (projects, boats, fabrication). It keeps one image per base
  name, choosing among formats by a fixed extension preference. Each entry
  gets a pre-generated `.jpg` thumbnail when one exists under
  `images/_thumbs/`, and otherwise points at the image itself.

The model states both scripts in Dafny and proves what they promise.

The string helpers are pure functions:

- `slugify` is `CadText.Slugify`.
- `nice_label` is `CadText.NiceLabel`.
- `group_key` is `CadText.GroupKey`.
- The Python built-ins they use are in module `Text`: `lower`, `isspace`,
  `strip`, `split`, `in` on strings and `rfind`.
- The `pathlib` path parts are in module `PurePath`.

The loops of the scripts are methods, each proved against a specification
function:

- `Grouping.GroupBy` fills the `setdefault(...).append` dict.
- `CadManifest.BuildDrawings`, `BuildItem` and `BuildItems` are the item
  loops. `CadManifest.GenerateCad` is the whole CAD script.
- `Grouping.CollectBy` is the filtering and bucketing loop of `list_images`.
- `GalleryManifest.ChooseFile` is the preference scan with its early
  `break`.
- `GalleryManifest.BuildEntry` and `BuildEntries` are the output loop.
- `GalleryManifest.ListImages` is `list_images`, and
  `GalleryManifest.BuildPayload` is `main`.

Other modeling choices:

- `sorted(..., key=...)` is `Ordering.SortBy`, a stable insertion sort that
  compares keys by code point.
- An insertion-ordered Python dict is a pair: the sequence of its keys in
  first-insertion order, and a `map`.
- The file system is an input. For CAD it is whether the folder exists and
  the names of its PDFs. For the gallery it is a `Disk`: the recursive
  listing of every existing section folder, plus the set of site-relative
  paths that exist.

`group_key` works in this order:

- It removes `.pdf` from the end of the whole file name with the regular
  expression `\.pdf$`, in any case. It does not use `Path.stem`. The `$`
  also matches just before a final newline, so `a.pdf` followed by a
  newline loses its `.pdf` but keeps the newline.
- It strips the result.
- It takes the text before the first ` - `, else before the first `_`,
  and strips that text too. Otherwise it joins the first two words of
  `split()` with one space, or keeps the whole stem when there are fewer
  than two words.

## Model

| member | source | states |
|---|---|---|
| Text.SkipFromSpec | tools/generate_cad_json_grouped.py:13 | every character skipped from the front is of the dropped class, and the first kept one is not |
| Text.SkipBackFromSpec | tools/generate_cad_json_grouped.py:13 | every character skipped from the back is of the dropped class, and the last kept one is not |
| Text.TrimSlice | tools/generate_cad_json_grouped.py:13 | `strip(chars)` gives a slice of the input that neither starts nor ends with a dropped character, and only dropped characters are cut around it |
| Text.TrimIndex | tools/generate_cad_json_grouped.py:18 | the k-th character after stripping is the input's character at the lead length plus k |
| Text.TrimStripped | tools/generate_cad_json_grouped.py:13 | stripping a string whose ends are not in the class leaves it unchanged |
| Text.IndexFrom | tools/generate_cad_json_grouped.py:23-26 | `sep in s`: a found index is an occurrence with none before it, and None means no occurrence at all |
| Text.LastIndexOf | tools/generate_gallery_json.py:21-22 | `rfind`: a found index holds the character and none follows it; None means the character is absent |
| Text.LastIndexBelow | tools/generate_gallery_json.py:21-22 | the last index below a bound holding a character, with none between it and the bound |
| Text.WordLength | tools/generate_cad_json_grouped.py:27 | the leading run of non-whitespace ends at whitespace or at the end of the string |
| Text.Truncate | tools/generate_cad_json_grouped.py:14 | `s[:n]` is the whole string when it has at most n characters, and exactly its first n characters otherwise |
| Text.Filter | tools/generate_cad_json_grouped.py:13 | the kept characters all satisfy the predicate and are no more than the input |
| Text.FilterAppend | tools/generate_cad_json_grouped.py:13 | filtering distributes over concatenation |
| Text.FilterKeepsAll | tools/generate_cad_json_grouped.py:13 | filtering keeps a string made only of kept characters |
| Text.FilterDropsAll | tools/generate_cad_json_grouped.py:13 | filtering a string made only of dropped characters gives nothing |
| Text.WordsShape | tools/generate_cad_json_grouped.py:27 | every word of `split()` is non-empty and free of whitespace |
| Text.WordsConcat | tools/generate_cad_json_grouped.py:27 | the words of `split()` joined without separator are exactly the non-whitespace characters of the input |
| Text.WordsPartition | tools/generate_cad_json_grouped.py:27 | `split()` loses exactly the whitespace: the two properties above together |
| Text.WordsAfterSpace | tools/generate_cad_json_grouped.py:27 | `split()` skips leading whitespace: it gives the same words with or without it |
| Text.WordLengthOf | tools/generate_cad_json_grouped.py:27 | a run of non-whitespace followed by whitespace or the end has exactly its own length as leading run |
| Text.WordsLeadingWord | tools/generate_cad_json_grouped.py:27 | a maximal run of non-whitespace at the front is one whole word, neither cut short nor extended; with the law above and `split("") == []` this fixes the words of every string |
| Text.FirstTwoWords | tools/generate_cad_json_grouped.py:27-28 | two words separated by a space and followed by whitespace or nothing are exactly the first two words |
| Text.DecimalRoundTrip | tools/generate_cad_json_grouped.py:51 | the rendering of a count is digits, has no leading zero except for 0, and reads back as the count |
| Ordering.LexLeReflexive | tools/generate_cad_json_grouped.py:35 | every string is at most itself |
| Ordering.LexLeTotal | tools/generate_cad_json_grouped.py:35 | the string order compares any two strings |
| Ordering.LexLeTransitive | tools/generate_cad_json_grouped.py:35 | the string order is transitive |
| Ordering.LexLeAntisymmetric | tools/generate_cad_json_grouped.py:35 | strings that are mutually ordered are equal |
| Ordering.InsertPermutes | tools/generate_cad_json_grouped.py:35 | inserting adds exactly one element |
| Ordering.InsertBound | tools/generate_cad_json_grouped.py:35 | a lower bound of the element and of the list bounds the result |
| Ordering.InsertSorted | tools/generate_cad_json_grouped.py:35 | inserting into a sorted list keeps it sorted |
| Ordering.SortByPermutes | tools/generate_cad_json_grouped.py:35 | `sorted` is a permutation of its input |
| Ordering.SortBySorted | tools/generate_cad_json_grouped.py:35 | `sorted` orders its output by key |
| Ordering.SortByCorrect | tools/generate_cad_json_grouped.py:35 | `sorted` is ordered by key, a permutation of the input, of the same length and with the same members |
| Ordering.InsertDistinct | tools/generate_cad_json_grouped.py:42 | inserting a new element into a list of distinct elements keeps them distinct |
| Ordering.SortByDistinct | tools/generate_cad_json_grouped.py:42 | sorting distinct keys keeps them distinct |
| Ordering.SortedDistinctStrict | tools/generate_gallery_json.py:27 | sorted distinct strings are strictly ascending |
| Common.Dedup | tools/generate_cad_json_grouped.py:38-40 | a dict's key order holds each key once, exactly the keys inserted |
| Common.DedupSnoc | tools/generate_cad_json_grouped.py:40 | `setdefault` on a present key keeps the key order; on a new key it appends the key |
| Grouping.GroupOrderSnoc | tools/generate_cad_json_grouped.py:38-40 | one more element adds its key to the dict's key order exactly when the key is new |
| Grouping.MembersOfAbsentKey | tools/generate_cad_json_grouped.py:40 | a key never seen holds no element |
| Grouping.MembersSnoc | tools/generate_cad_json_grouped.py:40 | `append` extends the list of the element's own key and no other |
| Grouping.MembersCount | tools/generate_cad_json_grouped.py:38-40 | each element is in its own key's list as often as in the input, and in no other list |
| Grouping.MembersAreKeyed | tools/generate_cad_json_grouped.py:38-40 | a key's list holds exactly the elements with that key |
| Grouping.MembersPermute | tools/generate_cad_json_grouped.py:35-40 | bucketing a reordering of the input reorders each bucket |
| Grouping.MemberIndex | tools/generate_cad_json_grouped.py:38-40 | every bucket element stands somewhere in the input |
| Grouping.MembersCons | tools/generate_cad_json_grouped.py:38-40 | seen from the front, the first element joins the list of its own key and no other |
| Grouping.InsertMembers | tools/generate_cad_json_grouped.py:35 | inserting an element puts it at the front of its key's list and changes no other list |
| Grouping.SortByStable | tools/generate_cad_json_grouped.py:35 | `sorted` is stable: for every key, the elements with that key are in the same order before and after sorting |
| Grouping.MembersSorted | tools/generate_cad_json_grouped.py:35-40 | a bucket of a sorted input is sorted, so it keeps the file-name order |
| Grouping.CountKeyedSplit | tools/generate_cad_json_grouped.py:38-40 | counting elements over one more key adds that key's bucket size |
| Grouping.CountKeyedNone | tools/generate_cad_json_grouped.py:38-40 | no element has a key in an empty key list |
| Grouping.CountKeyedAll | tools/generate_cad_json_grouped.py:38-40 | when every element's key is listed, all elements are counted |
| Grouping.BucketSizesCover | tools/generate_cad_json_grouped.py:38-46 | the buckets of distinct keys covering every element hold as many elements as the input |
| Grouping.BucketSizesCount | tools/generate_cad_json_grouped.py:38-46 | bucket sizes of distinct keys add up to the number of elements with one of those keys |
| Grouping.GroupOrderKeys | tools/generate_cad_json_grouped.py:36-40 | the dict's keys are distinct and are exactly the keys of the elements |
| Grouping.GroupBy | tools/generate_cad_json_grouped.py:36-40 | the bucketing loop ends with the key order and lists that the specification functions give |
| Grouping.SortedGroupOrder | tools/generate_cad_json_grouped.py:42 | the sorted keys are distinct, sorted, exactly the dict's keys and exactly the keys of the elements |
| Grouping.MapGroups | tools/generate_cad_json_grouped.py:42-57 | one result per key, in key order |
| Grouping.MapGroupsAll | tools/generate_cad_json_grouped.py:42-57 | a list holding f of each key and its bucket, position by position, is the mapped list |
| Grouping.MapGroupsIndex | tools/generate_cad_json_grouped.py:42-57 | the i-th result is f of the i-th key and its bucket |
| Grouping.LastBySnoc | tools/generate_gallery_json.py:24 | `bucket[ext] = path` overwrites the entry for that extension |
| Grouping.LastBySpec | tools/generate_gallery_json.py:23-24 | the extensions stored are those of the bucket's files, each mapped to the last file with it |
| Grouping.SelectSpec | tools/generate_gallery_json.py:21 | the filter keeps exactly the elements that satisfy it |
| Grouping.LastByDomain | tools/generate_gallery_json.py:24 | every file's extension is stored |
| Grouping.LastByValue | tools/generate_gallery_json.py:24 | every stored file has the extension it is stored under |
| Grouping.BucketContents | tools/generate_gallery_json.py:19-24 | a key's dict covers the extensions of all files with that key, and each value is such a file with that extension |
| Grouping.LastByStepSame | tools/generate_gallery_json.py:23-24 | a file updates its own key's dict by its extension |
| Grouping.LastByStepOther | tools/generate_gallery_json.py:23-24 | a file leaves the dicts of other keys alone |
| Grouping.CollectValues | tools/generate_gallery_json.py:23-24 | after one file every dict equals its specification |
| Grouping.CollectKeys | tools/generate_gallery_json.py:23 | `setdefault` adds a new key to the key order and keeps the dict's keys equal to it |
| Grouping.CollectStep | tools/generate_gallery_json.py:20-24 | one loop step keeps the dict of dicts equal to its specification |
| Grouping.CollectBy | tools/generate_gallery_json.py:19-24 | the scan loop ends with the key order and dict of dicts of the filtered files |
| Preference.FirstPresent | tools/generate_gallery_json.py:29-33 | the value under the first preferred extension present; None exactly when none is present |
| Preference.ChosenFrom | tools/generate_gallery_json.py:27-41 | at most one chosen file per key |
| Preference.ChosenFromSnoc | tools/generate_gallery_json.py:27-41 | one more key appends its chosen file, if any |
| Preference.ChosenFromIndex | tools/generate_gallery_json.py:27-41 | when every key has a preferred extension, one file is chosen per key, in key order |
| Preference.ChosenByRank | tools/generate_gallery_json.py:29-33 | the chosen value is a file with the key, and no file with that key has a more preferred extension |
| PurePath.NameStart | tools/generate_gallery_json.py:21-22 | the name starts within the path, right after a `/` when it does not start at 0 |
| PurePath.SuffixStart | tools/generate_gallery_json.py:21-22 | the suffix starts at the end, or at a `.` strictly inside the name and before its last character |
| PurePath.NameStartSpec | tools/generate_gallery_json.py:21-22 | the name starts at 0 exactly when the path has no `/`, and no `/` follows its start |
| PurePath.SuffixStartSpec | tools/generate_gallery_json.py:21-22 | there is a suffix exactly when the path's last `.` is inside the name, after its first and before its last character; no `.` follows the suffix's dot |
| PurePath.NameShape | tools/generate_gallery_json.py:22 | a name holds no `/` |
| PurePath.SuffixShape | tools/generate_gallery_json.py:21 | a non-empty suffix is a dot and at least one more character, with no other dot and no `/` |
| PurePath.SuffixSplits | tools/generate_gallery_json.py:22 | a path is its suffix-less part plus its suffix, and a name is its stem plus its suffix |
| PurePath.LastIndexOfAt | tools/generate_gallery_json.py:21-22 | `rfind` returns the one occurrence with none after it |
| PurePath.LastIndexOfAppend | tools/generate_gallery_json.py:36 | `rfind` on a concatenation finds the occurrence in the second part when there is one |
| PurePath.LastIndexOfAppendAbsent | tools/generate_gallery_json.py:36 | otherwise it searches the first part |
| PurePath.LastIndexOfPrefix | tools/generate_gallery_json.py:36 | `rfind` on a prefix agrees when the rest lacks the character |
| PurePath.NameAppend | tools/generate_gallery_json.py:36 | appending text without `/` extends the name |
| PurePath.JpgSuffix | tools/generate_gallery_json.py:36 | appending `.jpg` to a path with a non-empty name gives the suffix `.jpg`, and removing it gives the path back |
| PurePath.WithSuffixRoundTrip | tools/generate_gallery_json.py:36 | `with_suffix(".jpg")` followed by `with_suffix("")` gives the suffix-less path |
| PurePath.NameStartUnderFolder | tools/generate_gallery_json.py:36 | under a folder the name starts after the folder, at the relative path's own name start |
| PurePath.SuffixStartUnderFolder | tools/generate_gallery_json.py:36 | under a folder the suffix starts at the relative path's own suffix start |
| PurePath.NameUnderFolder | tools/generate_gallery_json.py:36 | a folder prefix does not change the name |
| PurePath.NameWithoutSuffix | tools/generate_gallery_json.py:22 | without its suffix, a path's name is its stem |
| PurePath.UnderFolder | tools/generate_gallery_json.py:36 | a folder prefix keeps the name and suffix, and `with_suffix("")` acts only on the relative part |
| CadText.Collapse | tools/generate_cad_json_grouped.py:13 | the substitution never grows the string, is empty only on empty input, and starts with a dash exactly when the input starts with a non-alphanumeric character |
| CadText.CollapseChar | tools/generate_cad_json_grouped.py:13 | one character is kept when it is in `[a-z0-9]` and becomes `-` otherwise |
| CadText.CollapseCons | tools/generate_cad_json_grouped.py:13 | a first character is kept when alphanumeric; otherwise it becomes a dash that merges with a dash the rest starts with |
| CadText.CollapseFront | tools/generate_cad_json_grouped.py:13 | one character in front adds its own substitution, except that two neighbouring runs of other characters become a single dash |
| CadText.CollapseStep | tools/generate_cad_json_grouped.py:13 | a character in front of a non-empty piece extends both sides of a split of the substitution the same way |
| CadText.CollapseAppend | tools/generate_cad_json_grouped.py:13 | the substitution of `a + b` is that of `a` followed by that of `b`, except that a run of other characters spanning the cut gives a single dash; with `CollapseChar` this fixes where every dash goes |
| CadText.CollapseExample | tools/generate_cad_json_grouped.py:13 | `a b` becomes `a-b` |
| CadText.CollapseShape | tools/generate_cad_json_grouped.py:13 | the substitution yields only `[a-z0-9-]` and never two dashes in a row |
| CadText.CollapseKeepsAlnum | tools/generate_cad_json_grouped.py:13 | the substitution keeps the alphanumeric characters in order and drops every other character |
| CadText.CollapseFixesSlugs | tools/generate_cad_json_grouped.py:13 | a string of slug characters without double dashes is left alone |
| CadText.TrimDashSlice | tools/generate_cad_json_grouped.py:13 | `strip("-")` leaves a slice with no dash at either end, and only dashes are cut around it |
| CadText.FallbackWellFormed | tools/generate_cad_json_grouped.py:14 | `cad-item` is made of slug characters without double dashes |
| CadText.SlugifyWellFormed | tools/generate_cad_json_grouped.py:11-14 | a slug is non-empty, at most 80 characters of `[a-z0-9-]`, does not start with `-` and has no `--` |
| CadText.FilterOfDashes | tools/generate_cad_json_grouped.py:13 | dashes contribute no non-dash characters |
| CadText.FilterBetweenDashes | tools/generate_cad_json_grouped.py:13 | dashes around a string do not change its non-dash characters |
| CadText.TrimDashKeepsRest | tools/generate_cad_json_grouped.py:13 | stripping dashes keeps every non-dash character |
| CadText.StrippedKeepsAlnum | tools/generate_cad_json_grouped.py:12-13 | before truncation, the non-dash characters are the alphanumeric characters of the lower-cased input |
| CadText.TruncateKeepsPrefix | tools/generate_cad_json_grouped.py:14 | cutting keeps a non-empty prefix of the non-dash characters, and all of them when nothing is cut |
| CadText.SlugifyWithoutAlnum | tools/generate_cad_json_grouped.py:11-14 | input without `[a-z0-9]` after lower-casing gives `cad-item` |
| CadText.SlugifyKeepsAlnum | tools/generate_cad_json_grouped.py:11-14 | otherwise the slug's non-dash characters are a non-empty prefix of the input's lower-cased alphanumerics, and all of them for input of at most 80 characters |
| CadText.SlugifyIdempotent | tools/generate_cad_json_grouped.py:11-14 | a slug that does not end with a dash is its own slug |
| CadText.LabelTextSlice | tools/generate_cad_json_grouped.py:17-18 | the label text has no `_` or `-` and neither starts nor ends with whitespace |
| CadText.SpaceSeparatorsShape | tools/generate_cad_json_grouped.py:18 | after the two replacements no `_` or `-` is left |
| CadText.StripWithoutSeparators | tools/generate_cad_json_grouped.py:18 | `strip()` keeps a string free of `_` and `-`, and leaves no whitespace at either end |
| CadText.LabelFromShape | tools/generate_cad_json_grouped.py:19 | the cut or fallback label has at most 60 characters and no `_` or `-` |
| CadText.NiceLabelShape | tools/generate_cad_json_grouped.py:16-19 | a label has at most 60 characters and no `_` or `-` |
| CadText.LabelFromText | tools/generate_cad_json_grouped.py:19 | empty text gives `PDF`; otherwise the label is the whole text when it has at most 60 characters and its first 60 characters when longer |
| CadText.NiceLabelText | tools/generate_cad_json_grouped.py:16-19 | the label is `PDF` when the stripped stem is empty; otherwise it starts with a visible character and is that text when it has at most 60 characters, its first 60 characters when longer |
| CadText.DropPdfEnding | tools/generate_cad_json_grouped.py:22 | a name ending in `.pdf` in any case loses exactly those four characters, and its key stem is the rest stripped |
| CadText.DropPdfBeforeNewline | tools/generate_cad_json_grouped.py:22 | before a final newline the `.pdf` goes and the newline stays |
| CadText.KeyStemWithoutPdf | tools/generate_cad_json_grouped.py:22 | a name with neither ending is only stripped |
| CadText.FirstOccurrence | tools/generate_cad_json_grouped.py:24 | `split(sep)[0]` cuts at the first occurrence |
| CadText.GroupKeyBeforeDash | tools/generate_cad_json_grouped.py:22-24 | with ` - ` in the stem, the key is the stripped text before its first occurrence |
| CadText.NoDashSeparator | tools/generate_cad_json_grouped.py:23 | no occurrence anywhere means the first tier does not apply |
| CadText.KeyOfStemUnderscore | tools/generate_cad_json_grouped.py:25-26 | without ` - ` but with `_`, the key is the stripped text before the first `_` |
| CadText.GroupKeyBeforeUnderscore | tools/generate_cad_json_grouped.py:21-26 | the same, for a file name |
| CadText.KeyOfStemWords | tools/generate_cad_json_grouped.py:27-28 | with neither, the key is the first two words joined by a space, or the whole stem |
| CadText.GroupKeyFirstWords | tools/generate_cad_json_grouped.py:21-28 | the same, for a file name |
| CadText.StripStripped | tools/generate_cad_json_grouped.py:22 | `strip()` leaves a string alone when its ends are not whitespace |
| CadText.GroupKeyIsStripped | tools/generate_cad_json_grouped.py:21-28 | a group key never starts or ends with whitespace |
| CadText.DashExampleStem | tools/generate_cad_json_grouped.py:22 | the `.pdf` of `Keel Bracket - Rev B.pdf` is removed |
| CadText.DashExampleSeparator | tools/generate_cad_json_grouped.py:23-24 | ` - ` first occurs at index 12 of `Keel Bracket - Rev B` |
| CadText.GroupKeyDashExample | tools/generate_cad_json_grouped.py:21-24 | `Keel Bracket - Rev B.pdf` has the key `Keel Bracket` |
| CadText.DashExampleCut | tools/generate_cad_json_grouped.py:24 | the stripped text before index 12 is `Keel Bracket` |
| CadText.GroupKeyUnderscoreExample | tools/generate_cad_json_grouped.py:21-26 | `keel_bracket_v2.pdf` has the key `keel` |
| CadText.WordsExampleStem | tools/generate_cad_json_grouped.py:22 | the `.pdf` of `keel bracket final.pdf` is removed |
| CadText.WordsExampleNoSeparator | tools/generate_cad_json_grouped.py:23-26 | `keel bracket final` holds neither ` - ` nor `_` |
| CadText.WordsExampleWords | tools/generate_cad_json_grouped.py:27 | the first two words of `keel bracket final` are `keel` and `bracket` |
| CadText.GroupKeyWordsExample | tools/generate_cad_json_grouped.py:21-28 | `keel bracket final.pdf` has the key `keel bracket` |
| CadManifest.DrawingsOf | tools/generate_cad_json_grouped.py:43-46 | one drawing per PDF |
| CadManifest.ItemsFrom | tools/generate_cad_json_grouped.py:42-57 | one item per key |
| CadManifest.SortedKeysGrouped | tools/generate_cad_json_grouped.py:42 | every sorted key has a bucket |
| CadManifest.BuildDrawings | tools/generate_cad_json_grouped.py:43-46 | the drawing loop yields the label and `docs/cad/` path of each PDF of the bucket, in order |
| CadManifest.BuildItem | tools/generate_cad_json_grouped.py:43-57 | one loop body yields the item of its key and bucket |
| CadManifest.BuildItems | tools/generate_cad_json_grouped.py:42-57 | the item loop yields the items of the keys in order |
| CadManifest.GenerateCad | tools/generate_cad_json_grouped.py:30-57 | a missing folder is an error; otherwise the result is the manifest of the sorted, bucketed PDFs |
| CadManifest.ItemsFromTitles | tools/generate_cad_json_grouped.py:48-50 | the items carry the keys as titles, in order |
| CadManifest.TotalOfItems | tools/generate_cad_json_grouped.py:42-57 | the drawings over the items add up to the bucket sizes of their keys |
| CadManifest.CadOneItemPerKey | tools/generate_cad_json_grouped.py:35-42 | one item per distinct key: the titles are distinct and are exactly the group keys of the PDFs |
| CadManifest.CadItemsOrdered | tools/generate_cad_json_grouped.py:42 | items are ordered by lower-cased title |
| CadManifest.CadItemContents | tools/generate_cad_json_grouped.py:35-57 | an item's drawings are its key's PDFs, each as often as listed, in lower-cased name order; the slug, subtitle, thumb, tags, images and notes are as written |
| CadManifest.CadEveryPdfOnce | tools/generate_cad_json_grouped.py:35-46 | every PDF lands in exactly one item: the drawings total the number of PDFs |
| GalleryManifest.EntriesOf | tools/generate_gallery_json.py:26-41 | one entry per chosen file |
| GalleryManifest.EntriesOfSnoc | tools/generate_gallery_json.py:41 | one more chosen file appends its entry |
| GalleryManifest.SortedKeysAreCandidates | tools/generate_gallery_json.py:27-28 | every sorted key has a bucket |
| GalleryManifest.ChooseFile | tools/generate_gallery_json.py:29-33 | the scan with `break` returns the file under the first preferred extension present |
| GalleryManifest.BuildEntry | tools/generate_gallery_json.py:35-41 | the entry holds the file's site path, and the mirrored thumbnail exactly when that exists, else the file's path |
| GalleryManifest.BuildEntries | tools/generate_gallery_json.py:26-41 | the output loop yields the entries of the chosen files, in key order |
| GalleryManifest.ListImages | tools/generate_gallery_json.py:14-42 | a missing folder gives `[]`; otherwise the result is the entries of the files chosen for the sorted keys |
| GalleryManifest.BuildPayload | tools/generate_gallery_json.py:45-49 | one list per section in SECTIONS order, and the total is the sum of their lengths |
| GalleryManifest.ImagesOf | tools/generate_gallery_json.py:20-21 | the files considered are exactly the listed regular files whose lower-cased suffix is an image extension |
| GalleryManifest.ImageExtensionsPreferred | tools/generate_gallery_json.py:10-11 | every image extension is in the preference list |
| GalleryManifest.ChosenCandidate | tools/generate_gallery_json.py:27-33 | the file chosen under a key is an image with that key, and no image with that key has a more preferred extension |
| GalleryManifest.ChosenFile | tools/generate_gallery_json.py:27-33 | every sorted key has a chosen file, so `chosen_path` is never `None`; it is an image with the key and has the most preferred extension among that key's images |
| GalleryManifest.ChosenFileAt | tools/generate_gallery_json.py:27-33 | one chosen file per key, position by position, each with the most preferred extension |
| GalleryManifest.EntriesOfIndex | tools/generate_gallery_json.py:41 | the i-th entry is built from the i-th chosen file |
| GalleryManifest.ListImagesContents | tools/generate_gallery_json.py:19-42 | one entry per key; the keys are strictly ascending and exactly the keys of the images; each entry comes from its key's chosen file |
| GalleryManifest.ThumbPath | tools/generate_gallery_json.py:36 | the thumbnail is `images/_thumbs/<section>/` plus the relative path without suffix plus `.jpg` |
| GalleryManifest.ThumbMirrorsFile | tools/generate_gallery_json.py:36 | for a file with a suffix, the thumbnail has suffix `.jpg` and mirrors the suffix-less relative path |
| GalleryManifest.CharOfConcat | tools/generate_gallery_json.py:35-36 | indexing a concatenation within its first two parts |
| GalleryManifest.ThumbPathChar | tools/generate_gallery_json.py:36 | a thumbnail path has `_` right after `images/` |
| GalleryManifest.SrcPathChar | tools/generate_gallery_json.py:35 | a source path has the section's first character right after `images/` |
| GalleryManifest.ThumbDiffersFromSrc | tools/generate_gallery_json.py:35-36 | for the site's sections the thumbnail path is never the file's own path |
| GalleryManifest.ThumbFallback | tools/generate_gallery_json.py:35-41 | `thumb` is the mirrored path exactly when it exists, otherwise it equals `src` |
| GalleryManifest.PreferJpgOverHeic | tools/generate_gallery_json.py:11 | a key with both `a.heic` and `a.jpg` gets `a.jpg` |
| GalleryManifest.PayloadForIndex | tools/generate_gallery_json.py:46 | the i-th payload entry is the i-th section and its list |
| GalleryManifest.PayloadSections | tools/generate_gallery_json.py:46-49 | the payload has exactly the three sections in order, and the total is the sum of their list lengths |

## Left out

- Python's `str.lower()` is modelled on ASCII letters only, because the model has no Unicode case tables. Non-ASCII letters are kept unchanged, so the model can differ for them.
- The order of `glob`/`rglob` is not modelled. The listing is an input, and both scripts sort it before use.
- The gallery scan sorts by `file_path.as_posix().lower()`. The model sorts by the lower-cased relative path instead. The folder prefix is the same for every path, so this does not change the order.
- These I/O steps are left out:
  - `Path.resolve()` and `SITE_ROOT`;
  - `relative_to` on absolute paths;
  - `exists()` and `is_file()`, which are inputs (`Disk`, `cadDirExists`, `Entry.isFile`);
  - `mkdir`, `json.dumps`, `write_text`;
  - the final `print` lines.
- CadManifest.GenerateCad: the `SystemExit` message text is not modelled. The error is the constant `CadDirMissing`.
- HEIC conversion, thumbnail rendering, the rotation scripts and the browser script are not part of this model. They are image-library calls and DOM code.
- GalleryManifest.ChosenFile: it does not say which file wins when two files share a key and a lower-cased extension (say `A.JPG` and `a.jpg`). It says only that the winner is one of them. The model's `LastBy` does decide this, as the last one in scan order.
- GalleryManifest.ThumbMirrorsFile requires a non-empty suffix. Every image has one, because its suffix is in the extension set.
- GalleryManifest.ThumbDiffersFromSrc and GalleryManifest.ThumbFallback are stated for the three section names only. For a section named `_thumbs/...` the two paths could coincide.
- `with_suffix` raises `ValueError` when the name is empty. An image path always has a non-empty name, so the model does not include the error path.
- No slug example for `Hull Frame Rev2 (2024)` is proved, because the proof over that literal is too costly. `CadText.CollapseChar` and `CadText.CollapseAppend` fix the substitution on every input, dash positions included, and `CadText.SlugifyWellFormed` and `CadText.SlugifyKeepsAlnum` cover the rest of `slugify`.
