# petitions-dataverse, modelled in Dafny

The petitions-dataverse scripts turn rows of a spreadsheet of historical
petitions (one TSV row per petition) into studies for a Dataverse
repository. This project models the core of that pipeline:

- **the study builder** (`dataversestudybuilder.py`). It reads cells of a row:
  non-blank checks, booleans, delimited lists and dates. It collects a study's
  fields, its ordered description fragments and its keywords, then finalises
  them into a flat dictionary.
- **the antislavery petition parser** (`antislaverypetitions.py`). It turns one
  row of the petitions spreadsheet into a study:
  - it cleans the date columns;
  - it derives the time period from the legislative action dates;
  - it sets the geography, the identifications, the title and the local id;
  - it reports which columns were used.
- **the DDI XML formatter** (`xmlformatter.py`). It places each study field as
  a node in a fixed tree of DDI elements, which it finds or creates. Keywords
  become one node per vocabulary and term.
- **the Dataverse JSON formatter** (`jsonformatter.py`). It writes the citation
  and geospatial metadata blocks of a study's native JSON, then advances the
  version and marks it a draft.
- **the JSON path helpers** (`jsonutils.py`): `jpath` get and set,
  `jpath_create_dicts`, `jpath_delete` and `jsondiff`.
- **the TSV helpers** (`tsvfile.py`): the header of a row list, and grouping
  rows by one or more key columns.
- **the DOI resolver** (`petitiondoiresolver.py`). It builds the search query
  from a study's description. The search's zero/one/many rule comes from
  `dataversehelper.py`.
- **the DOI map merge** (`merge_doi_maps.py`). It merges new Local ID ↔ DOI
  pairs into the stored map, keeping that map a bijection.
- **the update script** (`update.py`). For each row it finds or creates the
  study's DOI. It then builds the new metadata and keeps the published
  citation dates. It compares the result with the published version and
  commits only when something changed. It also runs the retrying driver loop
  over all rows.

Documents are JSON values (`Json.JValue`). Python exceptions are `Err` values
of `Results.Result`. The server, the search engine, the clock and the alarm
timer are parameters of the model, not calls.

The covered period is meant to end on the last day of the latest date's
month or year. The day-padding test at `antislaverypetitions.py:167` looks at
the earliest date instead of the latest. The parser and its row fields
follow the code as written (`PeriodAsWritten`). The corrected rule (`Period`)
is stated beside it, with its own lemmas. When every date is a checked date or
a year, the two agree (`AsWrittenOfDates`). "Findings" below gives two inputs
where they differ.

Likewise, `avoid_update_on_dates` in `update.py` reads a log line after each
insert, and that read can raise `IndexError`. The update driver follows the
code as written (`Update.AvoidDatesAsWritten`). The version without that read
(`Update.AvoidDates`) is stated beside it. Wherever the code as written
succeeds, the two leave the same document (`Update.AsWrittenAgrees`).

## Model

| member | source | states |
|---|---|---|
| Text.TrimLeft | dataversestudybuilder.py:107 | what `lstrip` leaves is a suffix of the input; it starts with a kept character; every character removed is one of those stripped |
| Text.TrimRight | dataversestudybuilder.py:107 | what `rstrip` leaves is a prefix of the input; it ends with a kept character; every character removed is one of those stripped |
| Text.TrimLeftSuffix | dataversestudybuilder.py:107 | what `lstrip` leaves is the input with a prefix removed |
| Text.TrimRightPrefix | dataversestudybuilder.py:107 | what `rstrip` leaves is the input with a suffix removed |
| Text.StripChars | antislaverypetitions.py:60 | `strip(cs)` leaves nothing longer than the input, and neither end of the result is a stripped character |
| Text.Strip | dataversestudybuilder.py:107 | `strip()` leaves no whitespace at either end |
| Text.StripOfClean | antislaverypetitions.py:60 | stripping a string with clean ends is the identity |
| Text.StripCharsAppend | antislaverypetitions.py:60 | a trailing stripped character does not change the result of `strip` |
| Text.StripCharsPrepend | antislaverypetitions.py:60 | a leading stripped character does not change the result of `strip` |
| Text.StripCharsEmpty | dataversestudybuilder.py:71 | `strip` leaves the empty string exactly when every character is stripped (both directions) |
| Text.StripCharsKeeps | antislaverypetitions.py:259 | `strip` adds no character that was not in the input |
| Text.JoinFirst | petitiondoiresolver.py:59 | a join of non-empty pieces starts with the first piece's first character |
| Text.JoinLast | petitiondoiresolver.py:59 | a join of non-empty pieces ends with the last piece's last character |
| Text.Split | jsonutils.py:30 | `split` on a non-empty separator gives at least one piece |
| Text.JoinSplit | jsonutils.py:35 | joining the pieces of a split with the same separator gives back the string |
| Text.JoinExtendFirst | jsonutils.py:35 | a character put in front of the first piece comes out in front of the joined string |
| Text.SplitCharCount | dataversestudybuilder.py:107 | a split on a one-character delimiter gives one more piece than there are delimiters |
| Text.SplitCharPieces | dataversestudybuilder.py:107 | no piece of a one-character split contains the delimiter |
| Text.SplitJoin | jsonutils.py:35 | splitting a join on a delimiter that no part contains gives back the parts |
| Text.SplitNoSep | jsonutils.py:30 | a string without the delimiter splits into itself alone |
| Text.JoinCons | dataversestudybuilder.py:347-348 | joining a part before a non-empty list puts the separator between them |
| Text.ReplaceIsSplitJoin | antislaverypetitions.py:60 | `replace(pat, repl)` splits on the pattern and joins with the replacement |
| Text.ReplaceCharByNothing | antislaverypetitions.py:295 | `replace(' ', '')` removes every occurrence of the character and nothing else, by count |
| Text.Lower | dataversestudybuilder.py:87 | `lower` keeps the length and lower-cases each character on its own |
| Text.LowerCharBlank | dataversestudybuilder.py:186 | lower-casing a character makes whitespace exactly of whitespace |
| Text.LowerKeepsBlank | dataversestudybuilder.py:202 | a lower-cased cell is blank exactly when the cell is blank |
| Text.Word | antislaverypetitions.py:212 | the leading word is a prefix without whitespace, stopped by whitespace or the end |
| Text.Words | antislaverypetitions.py:212 | `split()` gives only non-empty pieces without whitespace |
| Text.WordsCons | antislaverypetitions.py:212 | a word before a list of words is a list of words |
| Text.NatToString | antislaverypetitions.py:168-169 | `str(n)` of a natural number is a non-empty string of digits |
| Text.NatToStringValue | antislaverypetitions.py:168-169 | the digits of `str(n)` have the value `n` |
| Text.NatToStringRoundTrip | jsonutils.py:41 | `int('%d' % n) == n` |
| Text.SkipSpaceRun | jsonutils.py:41 | `int()` skips all the whitespace between the sign and the first digit |
| Text.PyIntSigned | jsonutils.py:41 | Python 2's `int()` of a sign, any whitespace and digits is the signed value of the digits: `int('- 1') == -1` |
| Text.PyIntOfSigned | jsonutils.py:41 | `int()` of a stripped string that starts with a sign and then whitespace and digits is the signed value of those digits |
| Text.NatToStringHasNoSlash | update.py:149 | a formatted number holds no `/`, so it is one path segment |
| Text.StrLeRefl | petitiondoiresolver.py:54-58 | Python string comparison is reflexive |
| Text.StrLeTotal | petitiondoiresolver.py:54-58 | any two strings compare one way or the other |
| Text.StrLeAntisym | petitiondoiresolver.py:54-58 | strings below each other are equal |
| Text.StrLeTrans | petitiondoiresolver.py:54-58 | string comparison is transitive |
| Text.MinStr | antislaverypetitions.py:160 | `min` of a non-empty list is a member that is below every member |
| Text.MaxStr | antislaverypetitions.py:159 | `max` of a non-empty list is a member that is above every member |
| Ordering.Insert | dataversestudybuilder.py:348 | inserting into a sorted list keeps it sorted and adds exactly the element (as a multiset) |
| Ordering.FirstBelowRest | dataversestudybuilder.py:348 | the first element of a sorted list is below each later one |
| Ordering.BelowAll | dataversestudybuilder.py:348 | a lower bound of an element and a list bounds every rearrangement of both |
| Ordering.ConsSorted | dataversestudybuilder.py:348 | a lower bound placed first keeps a list sorted |
| Ordering.Sort | dataversestudybuilder.py:348 | `sorted` is a permutation of its input, in order |
| Ordering.FirstIsLeast | dataversestudybuilder.py:348 | the head of a sorted list is below every member |
| Ordering.SortedUnique | dataversestudybuilder.py:348 | under a total order a multiset has exactly one sorted arrangement |
| Ordering.SameLength | dataversestudybuilder.py:348 | rearrangements have the same length |
| Ordering.SameHead | dataversestudybuilder.py:348 | two sorted rearrangements of one multiset start alike |
| Ordering.SameTail | dataversestudybuilder.py:348 | removing an equal head from two rearrangements leaves rearrangements |
| Ordering.SortedTail | dataversestudybuilder.py:348 | the tail of a sorted list is sorted |
| Ordering.SortIgnoresOrder | dataversestudybuilder.py:348 | the result of `sorted` depends only on the multiset of its input |
| Ordering.Filter | jsonformatter.py:78-80 | `filter` keeps exactly the elements that satisfy the test, and no more of them |
| Ordering.FilterAppend | jsonformatter.py:78-80 | `filter` keeps the order: it distributes over concatenation |
| Ordering.StrOrder | jsonformatter.py:82 | Python's string order is a total order |
| Ordering.IntStrOrder | dataversestudybuilder.py:348 | the order on (order, html) pairs is a total order |
| Ordering.StrStrOrder | jsonformatter.py:82 | the order on (vocabulary, term) pairs is a total order |
| Ordering.SortedSet | tsvfile.py:68 | `sorted(set(...))` holds exactly the members of the set, in order, as many as the set has |
| Ordering.LeastFirst | tsvfile.py:68 | the least member followed by the sorted others is the sorted set |
| Ordering.DistinctCons | tsvfile.py:68 | a new element before a list of distinct elements keeps them distinct |
| Ordering.SortedSetDistinct | tsvfile.py:68 | `sorted(set(...))` holds each member once |
| Ordering.HasMin | tsvfile.py:68 | a non-empty set of strings has a least member |
| Ordering.Least | tsvfile.py:68 | a least member of a non-empty set is found and is below every member |
| Ordering.NewMin | tsvfile.py:68 | a member below the least of the others is the least |
| Ordering.OldMin | tsvfile.py:68 | the least of the others, below the new member too, stays least |
| Ordering.MinOf | tsvfile.py:68 | the least string of a non-empty set is a member below every member |
| Json.Dumps | jsonutils.py:77 | a serialisation is non-empty and never starts with a closing bracket, brace or comma |
| Json.ParseValue | jsonutils.py:77 | reading a value consumes at least one token |
| Json.ParseItems | jsonutils.py:77 | reading list items consumes at least one token |
| Json.ParseMembers | jsonutils.py:77 | reading object members consumes at least one token |
| Json.ParseValueOpenList | jsonutils.py:77 | a non-empty list is read item by item |
| Json.ParseValueOpenObj | jsonutils.py:77 | a non-empty object is read member by member |
| Json.ParseDumps | jsonutils.py:77-78 | reading back `json.dumps(v, sort_keys=True)` followed by anything gives `v` and the rest: the serialisation is injective |
| Json.ParseDumpsList | jsonutils.py:77-78 | the round trip for lists |
| Json.ParseDumpsObj | jsonutils.py:77-78 | the round trip for objects, whose members are written in key order |
| Json.DumpsObj | jsonutils.py:77 | an object serialises as its members in sorted key order between braces |
| Json.DumpItemsHead | jsonutils.py:77 | a non-empty item list does not serialise starting with `]` |
| Json.DumpMembersHead | jsonutils.py:77 | a non-empty member list serialises starting with its first key |
| Json.ParseItemsStep | jsonutils.py:77 | after an item, `]` ends the list and `,` continues it |
| Json.DumpItemsCons | jsonutils.py:77 | two or more items serialise as the first, a comma and the rest |
| Json.Assoc3 | jsonutils.py:77 | the first item's text, the comma, the rest and what follows regroup to the right, as `DumpItemsCons` reads them |
| Json.ParseDumpItems | jsonutils.py:77-78 | reading back serialised items appends exactly those items |
| Json.Select | jsonutils.py:77 | the members selected are exactly those under the listed keys, with their values |
| Json.SelectAll | jsonutils.py:77 | selecting every key gives back the object's members |
| Json.SelectCons | jsonutils.py:77 | selecting the first key and then the others selects them all |
| Json.SelectOne | jsonutils.py:77 | selecting a single key adds its member |
| Json.ParseMembersStep | jsonutils.py:77 | after a member, `}` ends the object and `,` continues it |
| Json.DumpMembersOne | jsonutils.py:77 | one member serialises as its key, a colon and its value |
| Json.DumpMembersMore | jsonutils.py:77 | several members serialise as the first, a comma and the rest |
| Json.ParseDumpMembers | jsonutils.py:77-78 | reading back serialised members adds exactly those members |
| Json.ParseDumpMemberLast | jsonutils.py:77-78 | reading back the last member closes the object |
| Json.JsonDiffIsEquality | jsonutils.py:76-86 | `jsondiff(a, b)` reports a match exactly when `a == b` (both directions) |
| Json.JsonDiffListsItemwise | jsonutils.py:76-86 | lists match only at equal length and item by item |
| Json.Index | update.py:228 | `d[key]` succeeds exactly on an object holding the key, with its value; it fails otherwise |
| Json.Len | update.py:228 | `len(x)` succeeds exactly on lists, objects and strings, and gives a list's length |
| JsonUtils.PathParts | jsonutils.py:30 | a path always has at least one segment |
| JsonUtils.Segments | jsonutils.py:39-41 | each segment is paired with its `int()` reading, Python 2's, which allows whitespace around the number and between the sign and the digits |
| JsonUtils.ListIndex | jsonutils.py:41-43 | a list index is valid exactly from `-len` to `len - 1`, and negative indices count from the end |
| JsonUtils.GetAppend | jsonutils.py:38-52 | a walk that reached a real node continues from it |
| JsonUtils.GetFromNull | jsonutils.py:44-51 | once at `None`, a walk stays at `None` when it succeeds |
| JsonUtils.GetMissing | jsonutils.py:47-48 | a key missing from a dict gives `None`, and so does every key after it |
| JsonUtils.PathPartsIgnoreOuterSlashes | jsonutils.py:30 | a leading or trailing `/` does not change the segments |
| JsonUtils.ParentPartsArePrefix | jsonutils.py:35 | re-splitting the joined parent path gives exactly the leading segments, when none is empty |
| JsonUtils.PathPartsHaveNoSlash | jsonutils.py:30 | no segment holds a `/` |
| JsonUtils.SegmentsSplit | jsonutils.py:39 | the segments of a path split where the path does |
| JsonUtils.EditAtGet | jsonutils.py:31-37 | an edit at a path succeeds exactly when the walk reaches a dict that accepts it, and the same walk then reaches the edited dict |
| JsonUtils.GetLast | jsonutils.py:47-48 | the last key segment reads the parent dict's member, or `None` |
| JsonUtils.JPathSet | jsonutils.py:29-37 | with `setdata` `None`, `jpath` is a get and leaves the document unchanged |
| JsonUtils.SetAtParent | jsonutils.py:31-37 | a set succeeds exactly when the parent path leads to a dict; that dict then holds the value under the last key, and its other members are unchanged |
| JsonUtils.PathIsParentAndLast | jsonutils.py:35-36 | a path is its parent's segments followed by its last |
| JsonUtils.GetAfterPut | jsonutils.py:36 | after `parent[key] = v`, getting the key gives `v` |
| JsonUtils.GetAfterSet | jsonutils.py:29-52 | getting a path just set gives the value set (a last segment that `int()` does not read, so not `- 1` either, and no empty segment) |
| JsonUtils.SpacedNegativeIndex | jsonutils.py:39-50 | `jpath({'a': [1, 2]}, 'a/- 1')` is 2: the segment `- 1` reads as -1 and indexes the list from its end |
| JsonUtils.SpacedPathParts | jsonutils.py:30 | the path `a/- 1` splits into `a` and `- 1` |
| JsonUtils.SpacedSegments | jsonutils.py:39-41 | `a` is a key and `- 1` the index -1 |
| JsonUtils.CreateDictsAt | jsonutils.py:55-61 | `jpath_create_dicts` raises only `TypeError` |
| JsonUtils.ReachStep | jsonutils.py:58-61 | a walk from a dict steps into its first key |
| JsonUtils.CreateDictsFailsWhenBlocked | jsonutils.py:59-61 | `jpath_create_dicts` raises exactly when an existing node on the path is not a dict |
| JsonUtils.CreateDictsReaches | jsonutils.py:55-61 | afterwards every segment but the last names a dict, and the last names its old node or a new empty dict |
| JsonUtils.EmptyReach | jsonutils.py:60 | from a new empty dict only the empty path reaches anything |
| JsonUtils.CreateDictsExtends | jsonutils.py:55-61 | `jpath_create_dicts` only adds: every node already present is kept |
| JsonUtils.CreateDictsIdempotent | jsonutils.py:55-61 | a second `jpath_create_dicts` of the same path changes nothing |
| JsonUtils.GetIsReach | jsonutils.py:38-52 | along non-numeric keys, the `jpath` get reads what the keys reach |
| JsonUtils.JPathDelete | jsonutils.py:64-74 | a delete is a no-op when the get gives `None`, and fails when the get fails |
| JsonUtils.DeleteAtParent | jsonutils.py:70-74 | deleting a present key removes it from the parent dict and changes no other member |
| JsonUtils.RemoveApplies | jsonutils.py:74 | `del d[k]` succeeds only on a present key and removes just it |
| JsonUtils.GetAfterRemove | jsonutils.py:74 | after `del parent[key]`, getting the key gives `None` |
| JsonUtils.GetAfterDelete | jsonutils.py:64-74 | after a delete, the path gets `None` |
| JsonUtils.GetAfterDeletePresent | jsonutils.py:70-74 | after deleting a present value, the path gets `None` |
| JsonUtils.DeleteIdempotent | jsonutils.py:64-74 | deleting twice is deleting once |
| KeyPaths.PlainKeyOf | jsonformatter.py:139-141 | a key starting with a letter and ending without a space is a plain path key |
| KeyPaths.KeyPathParts | jsonutils.py:30 | a path written from plain keys splits back into those keys |
| KeyPaths.KeySegments | jsonutils.py:39-41 | the segments of such a path are its keys, none of them numeric |
| KeyPaths.ParentStep | jsonutils.py:35 | a dict parent path continues as a dict parent path one level down |
| KeyPaths.SetIn | jsonutils.py:36 | a nested `parent[last] = v` keeps the root a dict |
| KeyPaths.ReachSetIn | jsonutils.py:31-37 | after a nested set the keys reach the value, and every diverging path reaches what it did |
| KeyPaths.SetInKeepsParents | jsonutils.py:31-37 | a nested set keeps the dicts along its parent path |
| KeyPaths.ReachCreateDicts | jsonutils.py:55-61 | `jpath_create_dicts` leaves every diverging path as it was |
| KeyPaths.EditAtKeys | jsonutils.py:31-37 | along reached keys, `jpath` with `setdata` is the nested set |
| KeyPaths.KeyPathParentParts | jsonutils.py:35 | the parent parts of a key path are its keys but the last |
| KeyPaths.KeyPathParent | jsonutils.py:35 | the parent segments of a key path are those of its keys but the last |
| KeyPaths.KeyPathLast | jsonutils.py:36 | the key set or deleted is the last key |
| KeyPaths.NoSlashInKeys | jsonutils.py:30 | plain keys are non-empty and hold no `/` |
| KeyPaths.JPathSetAsEdit | jsonutils.py:31-37 | `jpath(root, path, v)` on a key path is the edit at the parent keys |
| KeyPaths.ParentKeysPlain | jsonutils.py:35 | the parent keys of plain keys are plain |
| KeyPaths.JPathSetKeys | jsonutils.py:31-37 | with a dict parent, `jpath(root, path, v)` succeeds and is the nested set |
| KeyPaths.FrontLast | jsonutils.py:31-37 | a key path is its parent keys followed by its last key, the split `jpath` makes |
| KeyPaths.JPathKeys | jsonutils.py:38-52 | with a dict parent, the `jpath` get gives what the keys reach, or `None` |
| KeyPaths.GetKeys | jsonutils.py:38-52 | the get walk along non-numeric keys gives what they reach, or `None` |
| KeyPaths.GetKeysSnoc | jsonutils.py:38-52 | the get walk extends by one key |
| KeyPaths.GetThenKey | jsonutils.py:47-48 | one more key segment reads the dict's member, or `None` |
| KeyPaths.SegmentsLast | jsonutils.py:39-41 | the last segment of non-numeric keys has no `int()` reading |
| KeyPaths.SegmentsSnoc | jsonutils.py:39-41 | segments extend key by key |
| KeyPaths.ReachLast | jsonutils.py:36 | the keys reach the parent dict's member under the last key |
| KeyPaths.JPathCreateDictsKeys | jsonutils.py:55-61 | `jpath_create_dicts` on a key path walks the keys |
| KeyPaths.CreatedParent | jsonutils.py:55-61 | after `jpath_create_dicts` the path's parent is a dict |
| KeyPaths.DeleteTop | jsonutils.py:70-74 | a delete at the top removes the key from the root |
| KeyPaths.JPathDeleteKey | jsonutils.py:64-74 | deleting a top-level key is a no-op when it is missing or `None`, and removes it otherwise |
| StudyBuilder.ParseBoolean | dataversestudybuilder.py:74-92 | `True` exactly when the cell, lower-cased and stripped, is `yes`; `False` exactly when it is `no`; `None` for anything else, including `na`, a blank cell and a missing key |
| StudyBuilder.ParseList | dataversestudybuilder.py:95-107 | an empty delimiter raises `ValueError` and nothing else does; otherwise there is one piece per piece of the split |
| StudyBuilder.StripEach | dataversestudybuilder.py:107 | each piece is the stripped piece at the same position |
| StudyBuilder.StripEachKeeps | dataversestudybuilder.py:107 | stripping the pieces brings in no new character |
| StudyBuilder.ParseListPieces | dataversestudybuilder.py:95-107 | on a one-character delimiter: one piece more than there are delimiters, each stripped and without the delimiter |
| StudyBuilder.DaysInMonth | dataversestudybuilder.py:153 | a Gregorian month has 28 to 31 days |
| StudyBuilder.CheckCanonical | dataversestudybuilder.py:149-157 | a canonical date that passes the calendar check is a real ISO day (day `00` read as `01`) |
| StudyBuilder.ParseDate | dataversestudybuilder.py:110-157 | a parsed date is a real ISO day or a four-digit year |
| StudyBuilder.ParseDates | dataversestudybuilder.py:132 | the list of parsed parts succeeds exactly when every part parses, and holds each part's date in place |
| StudyBuilder.ParseDateYear | dataversestudybuilder.py:140-141 | a four-digit year comes back unchanged |
| StudyBuilder.ParseDateEight | dataversestudybuilder.py:138-139 | `YYYYMMDD` becomes `YYYY-MM-DD` (day `00` read as `01`), and parses exactly when that is a real day |
| StudyBuilder.ParseDatesOfParts | dataversestudybuilder.py:131-132 | a comma-separated date is the least of the dates of its stripped parts, or the first part's error |
| StudyBuilder.ParseDateEarliest | dataversestudybuilder.py:131-132 | a comma-separated date parses exactly when every stripped part does, and is then one of their dates and no later than any of them |
| StudyBuilder.EarliestOfParts | dataversestudybuilder.py:132 | the least of the parsed parts is one of them and no later than any |
| StudyBuilder.MinAt | dataversestudybuilder.py:132 | `min` gives a member at some position, below every member |
| StudyBuilder.Htmls | dataversestudybuilder.py:348 | the html of each part, in place |
| StudyBuilder.DescriptionIsSorted | dataversestudybuilder.py:346-348 | the description is the html of the parts arranged by (order, html), in any sorted arrangement |
| StudyBuilder.DescriptionIgnoresAddOrder | dataversestudybuilder.py:346-348 | the description does not depend on the order in which the parts were added |
| StudyBuilder.Rendered | dataversestudybuilder.py:345-351 | rendering sets `Description` when there are parts and `Keywords` when there are keywords, and leaves every other field as it was |
| StudyBuilder.RenderedIdempotent | dataversestudybuilder.py:336-352 | rendering twice from the same parts is rendering once |
| StudyBuilder.UpdateSame | dataversestudybuilder.py:236 | setting a field to the value it has changes nothing |
| StudyBuilder.Normalised | dataversestudybuilder.py:186 | each ignore value is lower-cased and stripped, in place |
| StudyBuilder.Builder.constructor | dataversestudybuilder.py:174-187 | a new builder has no parts, keywords, used columns or output, is clean, and keeps the normalised ignore values |
| StudyBuilder.Builder.UseColumn | dataversestudybuilder.py:252 | adds the column to the used columns and changes nothing else |
| StudyBuilder.Builder.Set | dataversestudybuilder.py:204-236 | assigns the field and changes nothing else |
| StudyBuilder.Builder.SingleAssign | dataversestudybuilder.py:238-254 | when `Has` accepts the cell, assigns its stripped value and records the column; otherwise changes nothing |
| StudyBuilder.Builder.AddDescriptionHtml | dataversestudybuilder.py:256-271 | appends the (order, html) part and marks the builder dirty; changes nothing else |
| StudyBuilder.Builder.AddDescriptionEntry | dataversestudybuilder.py:273-306 | an accepted cell adds `<p>caption: value </p>` with its stripped value and records the column; otherwise the placeholder is added when given; otherwise nothing changes |
| StudyBuilder.Builder.AddKeywordEntry | dataversestudybuilder.py:308-320 | an accepted cell adds the keyword with its stripped value and records the column; otherwise nothing changes |
| StudyBuilder.Builder.AddKeyword | dataversestudybuilder.py:322-334 | appends the (keyword, value) pair and marks the builder dirty |
| StudyBuilder.Builder.Finalize | dataversestudybuilder.py:336-352 | when dirty, renders `Description` and `Keywords` from the parts; clean afterwards; a clean builder is left unchanged, so calling it again changes nothing |
| StudyBuilder.Builder.OutputAsDict | dataversestudybuilder.py:354-363 | returns the output after `Finalize` |
| Keywords.VocabRun | xmlformatter.py:173 | the greedy `[a-z-]*` run is a prefix of vocabulary characters, stopped by a non-vocabulary character or the end |
| Keywords.UntilQuote | xmlformatter.py:173 | the greedy `[^"]*` run is a prefix without quotes, stopped by a quote or the end |
| Keywords.MatchHere | xmlformatter.py:173 | a match at the front consumes input and gives a vocabulary and a text without quotes |
| Keywords.FindAll | jsonformatter.py:76-77 | every keyword `findall` reports has a `[a-z-]*` vocabulary and a text without quotes |
| Keywords.ItemShape | dataversestudybuilder.py:351 | the written keyword `vocab:"text"`, character by character |
| Keywords.MatchHereSound | xmlformatter.py:173 | a match is the written keyword at the front, and the scan resumes on a suffix |
| Keywords.PrefixPieces | xmlformatter.py:173 | the matched text cut at the colon and the quotes |
| Keywords.ContainsInSuffix | xmlformatter.py:173 | what occurs in a suffix occurs in the whole string |
| Keywords.FindAllSound | xmlformatter.py:173 | every keyword the scan reports is written as `vocab:"text"` somewhere in the string |
| Keywords.AllInSuffix | xmlformatter.py:173 | what is written in a suffix is written in the whole string |
| Keywords.AllCons | xmlformatter.py:173 | one more written keyword keeps every keyword written |
| Keywords.SortKeywords | xmlformatter.py:176 | `keyword_entries.sort()` is a permutation in (vocabulary, term) order |
| Keywords.VocabRunLen | xmlformatter.py:173 | the vocabulary run stops at the first non-vocabulary character |
| Keywords.UntilQuoteLen | xmlformatter.py:173 | the text run stops at the first quote |
| Keywords.MatchItem | xmlformatter.py:173 | a written keyword is matched whole, with a comma right after it |
| Keywords.MatchAt | xmlformatter.py:173 | the match reads the vocabulary up to `:"`, the text up to the quote, and skips one comma |
| Keywords.SkipSpace | xmlformatter.py:173 | a space never starts a match |
| Keywords.FindAllItem | xmlformatter.py:173 | the scan reads a written keyword and continues after it and its comma |
| Keywords.KeywordsTextCons | dataversestudybuilder.py:350-351 | several keywords are rendered as the first, `, ` and the rest |
| Keywords.FindAllKeywordsText | dataversestudybuilder.py:350-351 | reading back the `Keywords` text with the formatters' regex gives the builder's keywords, in order, when vocabularies are `[a-z-]` and values hold no quote |
| Keywords.FindAllItemThen | dataversestudybuilder.py:350-351 | a written keyword, `, ` and more text read as that keyword and then what the text holds |
| XmlFormatter.NodeWithAttrAndText | xmlformatter.py:106-125 | a childless node whose only attribute holds the text that is also its text |
| XmlFormatter.TimePeriodNode | xmlformatter.py:128-149 | a childless node whose `date` attribute is its text; it has an `event` attribute exactly when an event name is given, and no other attribute |
| XmlFormatter.KeywordsOf | xmlformatter.py:177-180 | one keyword per node |
| XmlFormatter.KeywordNodes | xmlformatter.py:172-181 | one node per match of the keyword pattern; none when nothing matches |
| XmlFormatter.KeywordsFromString | xmlformatter.py:152-181 | returns `keyword` leaf nodes whose (vocabulary, term) pairs are the pattern's matches, sorted as tuples: in order and the same multiset |
| XmlFormatter.NodesFor | xmlformatter.py:177-180 | the loop makes one node per sorted match, in order |
| XmlFormatter.NodesOfSorted | xmlformatter.py:175-181 | nodes made one by one from the sorted matches are the described nodes |
| XmlFormatter.KeywordNodesMeaning | xmlformatter.py:174-176 | the nodes' keywords are the matches sorted: in tuple order and a permutation of the matches |
| XmlFormatter.KeywordNodesOfRendered | xmlformatter.py:84-85 | the `Keywords` text the study builder renders gives back its keywords as nodes, sorted as tuples |
| XmlFormatter.EmptyKeywordsText | xmlformatter.py:175 | a builder without keywords renders text with no match |
| XmlFormatter.FirstWithTag | xmlformatter.py:266 | `parent.find(tag)` finds the first child with the tag, and finds nothing exactly when no child has it |
| XmlFormatter.Place | xmlformatter.py:243-275 | walking a path keeps the parent's tag, attributes and text |
| XmlFormatter.PlaceFindsOrCreates | xmlformatter.py:262-275 | the first child with the path's tag is rebuilt in place when there is one; otherwise one new node with that tag is appended; every other child stays as it was |
| XmlFormatter.PlaceKeepsDistinct | xmlformatter.py:262-275 | find-or-create never makes two children with the same tag |
| XmlFormatter.PlaceThenFind | xmlformatter.py:243-275 | after placing, the path reaches a node holding its former children, or none, followed by the new leaves |
| XmlFormatter.FirstWithSameTags | xmlformatter.py:266 | the first match depends only on the children's tags |
| XmlFormatter.FirstAfterMissing | xmlformatter.py:266-273 | a tag no child has is next found on the node appended for it |
| XmlFormatter.FindPathFresh | xmlformatter.py:272 | a new node reaches nothing below itself |
| XmlFormatter.NewNodeMarked | xmlformatter.py:101-103 | a created `citation` node carries `source="DVN_3_0"` |
| XmlFormatter.PlaceKeepsMarked | xmlformatter.py:269-272 | placing keeps every `citation` node carrying its source attribute |
| XmlFormatter.LeafNodesMarked | xmlformatter.py:249-260 | the leaves made for an entry keep the marking |
| XmlFormatter.FieldMapShape | xmlformatter.py:76-99 | every entry of the field map has a non-empty path of plain tags before its leaf |
| XmlFormatter.GrowsRefl | xmlformatter.py:262-275 | a tree grows into itself |
| XmlFormatter.GrowsTrans | xmlformatter.py:262-275 | growth is transitive |
| XmlFormatter.PlaceGrows | xmlformatter.py:243-275 | placing only adds nodes |
| XmlFormatter.FindPathGrows | xmlformatter.py:266 | what a path reaches before the tree grows, it still reaches, grown, afterwards |
| XmlFormatter.HoldsRunGrows | xmlformatter.py:253-260 | leaves once held stay held as the tree grows |
| XmlFormatter.XmlRootNode | xmlformatter.py:184-202 | a childless `codeBook` with `version="2.0"` and `source="DVN_3_0"` |
| XmlFormatter.Row | xmlformatter.py:220-276 | the root is a `codeBook` whose only child is the `stdyDscr` built from every field-map entry in order; that study's children have distinct tags, and every `citation` carries its source |
| XmlFormatter.EntryAt | xmlformatter.py:76-99 | each field-map entry has its shape |
| XmlFormatter.ApplyEntry | xmlformatter.py:240-275 | one pass of the loop is the entry placed when the row gives its column; it keeps the tag, distinct child tags and marking |
| XmlFormatter.StepKeeps | xmlformatter.py:240-275 | one entry keeps the study's tag, distinct child tags and marking |
| XmlFormatter.StudyIgnoresUngiven | xmlformatter.py:242 | only the columns the map names and the row gives decide the tree |
| XmlFormatter.EmptyStudy | xmlformatter.py:242 | a row giving none of the map's columns yields an empty `stdyDscr` |
| XmlFormatter.StudyGrows | xmlformatter.py:240-275 | the study only grows from one entry to the next |
| XmlFormatter.RowHoldsEntry | xmlformatter.py:240-276 | every entry the row gives ends up in the finished tree: its path reaches a node holding the entry's leaves, and a text leaf holds the row's value |
| TsvFile.Header | tsvfile.py:68 | the header holds exactly the columns some row has, sorted, each once |
| TsvFile.KeyOf | tsvfile.py:122-127 | a column name keys a row by its value and a list of names by the tuple of values in that order; a missing column raises `KeyError`; any other kind of `fields` raises `ValueError` |
| TsvFile.GroupBy | tsvfile.py:101-138 | with `unique` the result is the unique grouping, keyed to single rows; otherwise it is the list grouping; errors pass through, a repeated key raising `ValueError`, or `TypeError` for a tuple key of other than one value |
| TsvFile.GroupUnique | tsvfile.py:128-133 | the `unique` loop computes the unique grouping, failing on a repeated key with the error its message format gives |
| TsvFile.GroupLists | tsvfile.py:134-137 | the list loop computes the list grouping |
| TsvFile.UniqueGroupsAt | tsvfile.py:130-133 | one more row adds a fresh key; a repeated one raises `ValueError`, or `TypeError` when it is a tuple of other than one value |
| TsvFile.ListGroupsAt | tsvfile.py:136-137 | one more row is appended to its key's list |
| TsvFile.GroupByUnique | tsvfile.py:140-154 | `GroupByUnique` is `GroupBy` with `unique` set, with the same errors: `ValueError` or `TypeError` on a repeated key |
| TsvFile.KeyedInit | tsvfile.py:130 | dropping the last row keeps every row keyed |
| TsvFile.UniqueGroupsErr | tsvfile.py:132 | once a prefix of the rows fails, the whole grouping fails the same way |
| TsvFile.ListGroupsErr | tsvfile.py:137 | once a prefix of the rows fails, the whole grouping fails the same way |
| TsvFile.UniqueGroupsSnoc | tsvfile.py:130-133 | a fresh last key is added; a repeated one raises `ValueError`, or `TypeError` for a tuple of other than one value |
| TsvFile.UniqueGroupsError | tsvfile.py:122-132 | a failed unique grouping of keyed rows raises `ValueError` when `fields` is one column or a list of one, and `TypeError` (from `'%s' % key`) when it is a list of any other length |
| TsvFile.UniqueGroupsDistinct | tsvfile.py:128-133 | with every row keyed, unique grouping succeeds exactly when the keys are distinct (both directions) |
| TsvFile.DistinctStep | tsvfile.py:130-133 | the inductive step: the grouping goes on exactly when the keys so far are distinct and the new one is fresh |
| TsvFile.InitRepeat | tsvfile.py:132 | a repeat among earlier rows is a repeat among all |
| TsvFile.LastRepeat | tsvfile.py:132 | a last key seen before is a repeat |
| TsvFile.LastFresh | tsvfile.py:133 | distinct earlier keys and a fresh last key are distinct keys |
| TsvFile.UniqueGroupsContents | tsvfile.py:128-133 | a successful unique grouping maps each row's key to that row and holds no other key |
| TsvFile.ContentsStep | tsvfile.py:133 | the inductive step of the contents |
| TsvFile.ListGroupsKeys | tsvfile.py:134-138 | list grouping succeeds on keyed rows and has a key exactly for the keys that occur |
| TsvFile.ListGroupsMeaning | tsvfile.py:134-138 | each list holds exactly the rows with its key, in input order |
| TsvFile.RowsWithKeyAbsent | tsvfile.py:137 | a key no row has collects no rows |
| TsvFile.GroupSizesRemove | tsvfile.py:137 | the total of the group sizes does not depend on which key is counted first |
| TsvFile.ListGroupsSizes | tsvfile.py:134-138 | the list sizes add up to the number of rows: every row is in exactly one list |
| MergeDoiMaps.ColumnMapKeys | merge_doi_maps.py:38-39 | the dict has a key for each value in the column, and no other |
| MergeDoiMaps.ColumnMapSize | merge_doi_maps.py:41-44 | the dict has one entry per row exactly when the column repeats no value |
| MergeDoiMaps.SizeStep | merge_doi_maps.py:38 | the inductive step of the size |
| MergeDoiMaps.ColumnMapValues | merge_doi_maps.py:38-39 | with no repeat, each row's value maps to that row's other column |
| MergeDoiMaps.Merge | merge_doi_maps.py:33-70 | the loop over the update rows computes the merged table and counters, or the first error |
| MergeDoiMaps.TsvStore.constructor | merge_doi_maps.py:35 | the store holds the rows read |
| MergeDoiMaps.TsvStore.MergeInto | merge_doi_maps.py:33-70 | a failure leaves the stored rows unchanged; a success writes the merged rows |
| MergeDoiMaps.ValidIsBijection | merge_doi_maps.py:38-44 | between iterations the two dicts are inverse bijections with one entry per row |
| MergeDoiMaps.ValidInverse | merge_doi_maps.py:63-64 | in a valid table the two dicts are inverse to each other |
| MergeDoiMaps.StartChecksUniqueness | merge_doi_maps.py:38-44 | the stored table is refused for a repeated local ID, else for a repeated DOI, and accepted otherwise with valid dicts |
| MergeDoiMaps.StartOfValid | merge_doi_maps.py:38-44 | a valid table's own rows are accepted back unchanged |
| MergeDoiMaps.AppendKeepsValid | merge_doi_maps.py:61-65 | appending a pair new in both columns keeps the table valid |
| MergeDoiMaps.AppendKeepsDistinct | merge_doi_maps.py:63-65 | appending a row with a new value keeps the column free of repeats |
| MergeDoiMaps.StepMeaning | merge_doi_maps.py:47-67 | a local ID known with another DOI raises; then a DOI known with another ID raises; a pair new in both directions is appended and counted as an update; a known pair changes nothing and counts as preexisting; the table stays valid |
| MergeDoiMaps.MergeFromValid | merge_doi_maps.py:47-67 | a successful merge keeps the table valid, keeps every pair it held, and ends holding every update row's pair |
| MergeDoiMaps.MergeFromCounts | merge_doi_maps.py:47-67 | a successful merge keeps the old rows first, in order, appends one row per update, and counts every update row once, as an update or as preexisting |
| MergeDoiMaps.ConflictedIdRaises | merge_doi_maps.py:52-56 | a local ID mapped to another DOI aborts the merge at that row |
| MergeDoiMaps.ConflictedDoiRaises | merge_doi_maps.py:57-60 | a DOI mapped to another local ID aborts the merge at that row |
| MergeDoiMaps.MergeKnown | merge_doi_maps.py:66-67 | rows whose pairs are already held change nothing and all count as preexisting |
| MergeDoiMaps.MergeIdempotent | merge_doi_maps.py:33-70 | merging the same file again leaves the table unchanged and counts every row as preexisting |
| MergeDoiMaps.MergedKeepsStored | merge_doi_maps.py:33-70 | a successful merge keeps the stored rows first, in order, and counts every update row once |
| Resolver.NoCloseNoTag | petitiondoiresolver.py:49 | text without `>` holds no tag |
| Resolver.NoTagSuffix | petitiondoiresolver.py:49 | a suffix of tag-free text is tag-free |
| Resolver.NoTagPrefix | petitiondoiresolver.py:49 | a prefix of tag-free text is tag-free |
| Resolver.IndexOf | petitiondoiresolver.py:49 | the first position of a character |
| Resolver.ReplaceTags | petitiondoiresolver.py:49 | replacing each `<...>` tag by a space leaves no tag and adds only spaces |
| Resolver.CollapseSpaces | petitiondoiresolver.py:49 | collapsing runs of spaces leaves no two adjacent spaces, adds no character, and keeps the first and last characters |
| Resolver.ConsSpaced | petitiondoiresolver.py:49 | a character before a single-spaced string keeps it single-spaced unless both are spaces |
| Resolver.CollapseKeepsNoTag | petitiondoiresolver.py:49 | collapsing spaces adds no tag |
| Resolver.CleanFragmentShape | petitiondoiresolver.py:49 | a cleaned fragment holds no tag, has no whitespace at either end and no two adjacent spaces |
| Resolver.Cleaned | petitiondoiresolver.py:47-50 | one cleaned fragment per piece of the description split on `</p>`, in place |
| Resolver.ResolverQuery | petitiondoiresolver.py:51-59 | there is no query exactly when fewer than five fragments (seven labels less two) are non-empty and labelled |
| Resolver.TermsShape | petitiondoiresolver.py:47-53 | every query term is a cleaned piece of the description that is non-empty, starts with a label, holds no tag, has no outer whitespace and no double space |
| Resolver.QueryCons | petitiondoiresolver.py:59 | the query is the first term quoted, ` AND `, then the query of the rest |
| Resolver.QueryOne | petitiondoiresolver.py:59 | the query of one term is that term quoted |
| Resolver.DoiSearch.constructor | dataversehelper.py:80-100 | a search service answers with the given items and has sent no query |
| Resolver.DoiSearch.GetDoiFromSearch | dataversehelper.py:230-237 | sends exactly this one query and answers by the unique-search rule |
| Resolver.SearchAnswer | dataversehelper.py:94-100 | a unique search: no item is `None`; several are an error; one empty item is `None`; one item without a non-empty `global_id` is an error; otherwise that `global_id`; a request error passes through; a DOI found is never empty |
| Resolver.Resolve | petitiondoiresolver.py:45-61 | a missing `Description` raises `KeyError`; too few labelled fragments give `None` without a search; otherwise the query is sent exactly once and its answer returned |
| Update.GetPlain | update.py:128-129 | the `jpath` get along non-numeric keys is what the keys reach, or `None` |
| Update.CitationKeyPlain | update.py:127 | each key of the citation path is plain |
| Update.ThreePlain | update.py:127 | three plain keys form a plain key path |
| Update.CitationKeysPlain | update.py:127 | the citation path's keys are plain |
| Update.CitationPathIsKeys | update.py:127 | `metadataBlocks/citation/fields` is the key path of its three keys |
| Update.CitationNodeIsJPath | update.py:128 | the citation node is what `jpath(metadata, citation_path)` returns |
| Update.Items | update.py:129-135 | `enumerate` of a list gives its items, of a dict its keys and of a string its characters, each key or character a string; anything else is not iterable and raises `TypeError` |
| Update.KeyItems | update.py:134 | a dict's keys, as the loop variable receives them: one string per key, in order |
| Update.LastNamed | update.py:129-132 | the last block with the type name, and none exactly when no block has it |
| Update.NoteBlockMeaning | update.py:130-132 | one block records its position for each name it carries and keeps the other entries |
| Update.ScanMeaning | update.py:129-138 | a scan fails exactly when there are names to look for and some block lacks a type name; otherwise it maps each name to the last block carrying it, and holds no other name |
| Update.AllTypedSplit | update.py:131 | every block is typed exactly when the earlier ones and the last are |
| Update.ScanStops | update.py:131 | an untyped block fails the whole scan with its lookup error |
| Update.ScanIndices | update.py:129-138 | the two nested loops compute the scan |
| Update.Present | update.py:136 | the names the map holds, in order, distinct when the names are, and none when the map holds none of them |
| Update.Entries | update.py:144-145 | one (field, published position, local position or `None`) entry per name, in order |
| Update.InsertByKey | update.py:146-147 | inserting into a key-sorted list keeps it sorted and adds exactly the entry |
| Update.HeadBelowTail | update.py:146-147 | the first key of a key-sorted list is below every later one |
| Update.AboveByMultiset | update.py:146-147 | a lower bound of an entry and a list bounds every rearrangement of both |
| Update.SortByKey | update.py:146-147 | the sort is a permutation of the entries in key order |
| Update.PlanOrder | update.py:146-147 | after the sort, every rewrite of an existing local entry comes before every insert, and the inserts go from the highest published position down |
| Update.PyInsert | update.py:151-153 | `list.insert(i, x)` puts `x` at `i`, or appends it when `i` is past the end, keeping every other item in order |
| Update.ReachParent | update.py:162-163 | a path that reaches something has a dict parent |
| Update.AvoidUpdateOnDates | update.py:123-163 | the method computes `AvoidDatesAsWritten`: both scans, then the sorted plan of rewrites and inserts, with the log line's read after each insert |
| Update.ApplyPlan | update.py:148-163 | the loop over the plan computes the plan applied in order, as written: an insert whose position is past the end of the grown list raises `IndexError` in the log line |
| Update.RewriteKeepsNames | update.py:162-163 | writing a `value` keeps every block's type name |
| Update.StepFits | update.py:148-163 | the first entry of a fitting plan succeeds and the rest fits what it leaves |
| Update.Stays | update.py:148-163 | a block that no rewrite aims at is still in the list after the plan |
| Update.NamedOnce | update.py:131 | a block carries one type name |
| Update.Placed | update.py:148-163 | each planned field whose published block has a value ends holding that value under its name |
| Update.TwoCopies | update.py:144-145 | two equal positions count a value twice |
| Update.OneCopy | update.py:144-145 | in a plan of distinct fields each entry occurs once |
| Update.DistinctFieldsPerm | update.py:146-147 | sorting keeps the fields distinct |
| Update.DateFieldsDistinct | update.py:124 | the two date fields are distinct |
| Update.EntriesOfScans | update.py:129-145 | the entries built from the two scans fit both lists, each field once |
| Update.EntriesOfNames | update.py:129-145 | the same for any distinct list of names |
| Update.ScanFits | update.py:129-138 | each recorded position holds a block with that name |
| Update.EntriesDistinct | update.py:144-145 | names given once plan each field once |
| Update.SortedFits | update.py:146-147 | fitting entries, sorted, fit the local list as a plan |
| Update.PlanFits | update.py:129-147 | the plan built from two successful scans fits the local list, each field once |
| Update.ApplyNeedsList | update.py:151 | a non-empty plan applies only to a list |
| Update.ResultNode | update.py:123-163 | a successful run without the log line's read found the local citation fields and holds the edited list there |
| Update.DatesCarried | update.py:123-163 | after the run without the log line's read (and so, by `AsWrittenAgrees`, after any run of the code as written that succeeds), each published date field that has a value is in the local citation fields with that value, rewritten over the local entry or inserted as the whole published block |
| Update.OthersKept | update.py:123-163 | after the run without the log line's read, every local block not named by a published date field is still among the local citation fields; a local dict or string, walked only when no date field is published, is kept whole |
| Update.PlanAvoids | update.py:144-147 | a field none of the names carries is aimed at by no entry |
| Update.SetInSame | update.py:162-163 | setting a node to what it already holds changes nothing |
| Update.NoPublishedDates | update.py:123-163 | with no date field published and a published block list that is typed, the local document is left unchanged by both versions, whatever list, dict or string its citation fields are |
| Update.FitsApplies | update.py:148-163 | a fitting plan runs to its end |
| Update.ScanOk | update.py:129-138 | a scan fails only on an untyped block, and only when there is a name to look for |
| Update.NamesArePublished | update.py:136 | names are looked for locally exactly when the published fields hold a date field |
| Update.AvoidDatesSucceeds | update.py:123-163 | the run without the log line's read succeeds exactly when both citation nodes are a list, a dict or a string, every published block is typed and, when a date field is published, the local node is a list of typed blocks |
| Update.PlanApplies | update.py:148-163 | after both scans the edits go through exactly when there are none or the node is a list |
| Update.ApplyAgrees | update.py:150-156 | where the as-written entry succeeds, the corrected one gives the same list |
| Update.ApplyAllAgrees | update.py:148-163 | where the as-written plan succeeds, the corrected one gives the same list |
| Update.AsWrittenAgrees | update.py:123-163 | wherever the code as written succeeds, the corrected version leaves the same document |
| Update.DictFieldsKept | update.py:134-137 | no published citation fields and local citation fields `{"a": 1}`: the code as written leaves the local document as it was |
| Update.DocNode | update.py:127 | the citation node of a document built from fields is those fields |
| Update.DocWith | update.py:127 | replacing the citation node of such a document |
| Update.PastEndScan | update.py:129-134 | the counterexample's published scan finds `distributionDate` at position 2 |
| Update.PastEndPlan | update.py:144-147 | the counterexample's plan is one insert at published position 2 |
| Update.AsWrittenFailsPastEnd | update.py:150-156 | a published `distributionDate` at position 2 and an empty local list: the code as written raises `IndexError` in its log line, while the corrected version holds the block |
| Update.PastEndApply | update.py:150-156 | the counterexample's insert, with and without the log line's read |
| UpdateScript.FirstReadMeaning | update.py:185-191 | there is no DOI exactly when all three reads raise; otherwise it is the first read that does not |
| UpdateScript.ReadDoi | update.py:185-191 | the retry loop returns the first DOI read, and none exactly when all three reads raise |
| UpdateScript.CreateStudy | update.py:183-194 | creating the study and reading its DOI |
| UpdateScript.Metadata | update.py:210-223 | the local metadata: the four deletes, `setrow`, then `avoid_update_on_dates` as written unless forced |
| UpdateScript.NoUpdateRequired | update.py:225-229 | the test succeeds exactly when both documents are dicts with `metadataBlocks` and the published `files` has a length; it says no update exactly when not forced, the blocks are equal and there is a file |
| UpdateScript.Sync | update.py:204-273 | after the DOI, a row counts at most one of `unchanged` or `update` |
| UpdateScript.Decision | update.py:228-272 | the decision counts at most one of `unchanged` or `update` |
| UpdateScript.DoiPhase | update.py:168-203 | finding the DOI counts at most one `create` |
| UpdateScript.DriverCountersKept | update.py:283-304 | the counters `update` increments are none of the driver's |
| UpdateScript.RowCountersKept | update.py:283-304 | a row adds one to `total` and one to the counter of its outcome |
| UpdateScript.RowEffectCounters | update.py:165-273 | `update` increments only `create`, `unchanged` and `update` |
| UpdateScript.KeepsPublishedDates | update.py:221-223 | unless forced, when the local metadata can be built, each published date field with a value is in the local citation fields with that value, whatever the row says |
| UpdateScript.CreateCounted | update.py:172-181 | a row is counted as `create` exactly when its local ID is not in the lookup and the search answers with no DOI |
| UpdateScript.PreviewReturnsSearch | update.py:196-198 | without `commit`, a row needing a new study ends with the search's answer and logs nothing |
| UpdateScript.CreateFailsWithoutDoi | update.py:192-194 | a new study whose `doi` raises on all three reads stops the row with `RuntimeError`, and nothing is logged |
| UpdateScript.LoggedIsNew | update.py:200-203 | a row is logged only for a local ID not in the lookup, with a non-empty DOI, and goes on with that DOI |
| UpdateScript.DecisionCounted | update.py:225-234 | a row ending without an exception is counted once; it is `unchanged` exactly when not forced, the blocks are equal and there is a file |
| UpdateScript.SyncCounted | update.py:207-234 | once the DOI is known, a row is counted only when both metadata are at hand, and then as the decision says |
| UpdateScript.CommitStoresLocal | update.py:235-270 | a committed update that succeeds stored exactly the local metadata blocks, and uploaded and published |
| UpdateScript.PreviewNeverPushes | update.py:271-272 | without `commit`, a counted row ends without an exception |
| UpdateScript.LogsMore | update.py:278-305 | the log extends by the next row's outcome |
| UpdateScript.IdentifiedMore | update.py:280 | one more row with a local ID |
| UpdateScript.TallyStep | update.py:294-304 | the counters of the outcome kinds after one more row |
| UpdateScript.KindCounter | update.py:294-304 | every outcome has one of the driver's counters, never `total` |
| UpdateScript.TallyLast | update.py:294-304 | one more outcome adds one to its kind |
| UpdateScript.TallyTotal | update.py:294-304 | successes, time-outs and errors add up to the rows processed |
| UpdateScript.DrivenMore | update.py:278-305 | one more row of the driver loop keeps the loop's account |
| UpdateScript.WaitsLast | update.py:284-302 | one more row waits when the flag was set, and sets the flag on a time-out, clears it on success, keeps it on an error |
| UpdateScript.LastFailTimeoutMeaning | update.py:295-302 | the corrected flag is set exactly when some row timed out and every later row ended in an error |
| UpdateScript.NeverWaits | update.py:284-292 | as written, the driver never waits after a time-out |
| UpdateScript.WaitAfterTimeOut | update.py:284-302 | after a time-out, the code as written goes straight on while the corrected driver waits once |
| UpdateScript.Script.constructor | update.py:275-277 | a new driver has the lookup, no counters and no logged rows |
| UpdateScript.Script.Bump | update.py:283 | `counters[name] += 1` adds one to that counter and changes nothing else |
| UpdateScript.Script.SyncRow | update.py:204-273 | the result and counters are those of the row after its DOI is known; nothing is logged |
| UpdateScript.Script.Decide | update.py:225-272 | the result and counters are those of the decision; nothing is logged |
| UpdateScript.Script.Log | update.py:200-203 | appends the (local ID, DOI) row and rewrites the DOI update file with all logged rows |
| UpdateScript.Script.FindDoi | update.py:168-203 | the DOI found, the counters, the logged rows and the queries sent are those of the DOI phase |
| UpdateScript.Script.UpdateRow | update.py:165-273 | `update(row)`: the result, counters, logged rows and queries are those of the row's effect |
| UpdateScript.Script.ProcessRow | update.py:278-305 | one row adds one to `total` and one to the counter of its outcome, and extends the log |
| UpdateScript.Script.ProcessRows | update.py:275-305 | a row without a local ID stops with `KeyError`; every earlier row is counted, updated under the alarm and counted by its outcome; the waits are as the driver says |
| JsonFormatter.Items | jsonformatter.py:51-56 | `value[i]` over `xrange(len(value))` walks a list's items, or a string's characters |
| JsonFormatter.Field | jsonformatter.py:42-72 | a compound with fewer child names than values raises `IndexError`, and nothing else does; a built field has exactly `typeName` (the name), `multiple` (whether the value is a list), `value` and `typeClass` (`compound`, `controlledVocabulary` for `country` and `subject`, else `primitive`) |
| JsonFormatter.FieldOfString | jsonformatter.py:51-56 | a child field of one string is a primitive leaf |
| JsonFormatter.FieldScalarValue | jsonformatter.py:57-69 | a field that is not compound carries the value itself |
| JsonFormatter.ChildMapKeys | jsonformatter.py:54-56 | the dict of a compound names exactly the child names used |
| JsonFormatter.ChildMapValues | jsonformatter.py:54-56 | each child name holds the field of the last value given under it |
| JsonFormatter.FieldCompoundValue | jsonformatter.py:53-56 | a compound that is not unrolled is a one-element list holding the dict of child fields |
| JsonFormatter.FieldUnrolledValue | jsonformatter.py:50-52 | an unrolled compound is one single-key dict per value, in order |
| JsonFormatter.KeywordField | jsonformatter.py:75-92 | with no keyword whose vocabulary and term are both non-blank, the unbound `output` raises `NameError`, and nothing else does; otherwise it is the `keyword` compound with one dict per kept keyword |
| JsonFormatter.ReadKeywords | jsonformatter.py:83-89 | one keyword read per dict |
| JsonFormatter.ReadKeywordObject | jsonformatter.py:84-87 | a keyword dict reads back as its (vocabulary, term) pair |
| JsonFormatter.KeywordFieldMeaning | jsonformatter.py:76-89 | the field's keywords are the kept matches sorted as tuples: in order and the same multiset |
| JsonFormatter.FilterKeepsAll | jsonformatter.py:78-80 | a filter that keeps every element is the identity |
| JsonFormatter.KeywordFieldOfRendered | jsonformatter.py:75-92 | the `Keywords` text the study builder renders, read back by `_keyword_field`, gives the builder's keywords in tuple order |
| JsonFormatter.CitationField | jsonformatter.py:95-105 | `_citation_field` is the `publication` compound that `_field` builds from the pair |
| JsonFormatter.Cell | jsonformatter.py:111 | `row[key]` raises `KeyError` exactly for a missing column |
| JsonFormatter.One | jsonformatter.py:111 | appending one field fails exactly when building it fails |
| JsonFormatter.NamedConcat | jsonformatter.py:110-138 | type names concatenate with the field lists |
| JsonFormatter.FieldNamed | jsonformatter.py:66-67 | a built field carries its first argument as `typeName` |
| JsonFormatter.OptionalNamed | jsonformatter.py:118-128 | an optional field is named when the column is given and absent otherwise |
| JsonFormatter.CitationHeadOutcome | jsonformatter.py:110-120 | the first fields build exactly when their columns are present; otherwise `KeyError` |
| JsonFormatter.CitationHeadValue | jsonformatter.py:110-120 | the first fields are title, author, contact, description and the optional subject |
| JsonFormatter.NamedFour | jsonformatter.py:111-117 | four named fields before a named list |
| JsonFormatter.NamedOne | jsonformatter.py:111 | one named field before a named list |
| JsonFormatter.CitationHeadNamed | jsonformatter.py:110-120 | the first fields carry their type names, the title first |
| JsonFormatter.CitationMiddleOutcome | jsonformatter.py:121-128 | the keyword, publication and production fields build exactly when their columns are present and a keyword is kept |
| JsonFormatter.CitationMiddleValue | jsonformatter.py:121-128 | the middle fields: keywords, the optional publication and the optional production date |
| JsonFormatter.Assoc | jsonformatter.py:110-138 | list concatenation is associative |
| JsonFormatter.CitationMiddleNamed | jsonformatter.py:121-128 | the middle fields carry their type names |
| JsonFormatter.CitationTailOutcome | jsonformatter.py:129-138 | the last fields build exactly when `Distributor` is present; otherwise `KeyError` |
| JsonFormatter.CitationTailValue | jsonformatter.py:129-138 | the last fields: distributor, date of deposit and the optional time period |
| JsonFormatter.NamedTwo | jsonformatter.py:129-133 | two named fields before a named list |
| JsonFormatter.CitationTailNamed | jsonformatter.py:129-138 | the last fields carry their type names, with the date of deposit being today |
| JsonFormatter.CitationFieldsOutcome | jsonformatter.py:110-138 | the citation fields build exactly when every column read with `row[...]` is present and a keyword is kept; a missing column raises `KeyError`, an empty keyword list `NameError` |
| JsonFormatter.CitationFieldsNamed | jsonformatter.py:110-138 | the citation fields carry their type names in order, start with the title and hold today's date of deposit |
| JsonFormatter.GeoFieldMeaning | jsonformatter.py:143-151 | the geospatial field is the `geographicCoverage` compound holding the country, and `city` exactly when a coverage is given |
| JsonFormatter.PlusOne | jsonformatter.py:167 | `version_minor + 1` adds one to a number and raises `TypeError` for anything else |
| JsonFormatter.LiteralKeyPlain | jsonformatter.py:157-177 | each top-level key `setrow` names is plain |
| JsonFormatter.PlainKeys3 | jsonformatter.py:139-141 | three plain keys form a plain path |
| JsonFormatter.BlockKeysPlain | jsonformatter.py:139-141 | a block's `fields` and `displayName` paths are plain |
| JsonFormatter.BlockPath | jsonformatter.py:139-141 | a block path is its keys joined by `/` |
| JsonFormatter.SpelledPath | jsonformatter.py:139-141 | `metadataBlocks/<block>/fields` and `metadataBlocks/<block>/displayName` are the key paths of their three keys |
| JsonFormatter.TopPath | jsonformatter.py:157 | a top-level key is its own path |
| JsonFormatter.ReachTop | jsonformatter.py:157 | a one-key walk from a dict reaches that key's node |
| JsonFormatter.ReachSameHead | jsonformatter.py:139-141 | dicts that agree on the first key agree on every walk through it |
| JsonFormatter.DivergeExtend | jsonformatter.py:139-141 | a path branching off a block branches off each of its members |
| JsonFormatter.TopGet | jsonformatter.py:157 | `jpath(t, key)` on a dict reads the top-level key, or `None` |
| JsonFormatter.TopSet | jsonformatter.py:159 | `jpath(t, key, v)` on a dict sets the top-level key |
| JsonFormatter.SiblingsDiverge | jsonformatter.py:140-141 | the `fields` and `displayName` paths of one block branch off each other |
| JsonFormatter.WriteBlockAtMeaning | jsonformatter.py:139-141 | writing a block succeeds exactly when `jpath_create_dicts` does, and raises only `TypeError`; the block then holds the given fields and name, and every branching path reaches what it did |
| JsonFormatter.WriteBlockMeaning | jsonformatter.py:139-141 | the same for the block named by its key |
| JsonFormatter.TopGetNamed | jsonformatter.py:157-174 | reading a status key of a dict |
| JsonFormatter.TopSetNamed | jsonformatter.py:159-176 | setting a status key of a dict |
| JsonFormatter.TopDeleteNamed | jsonformatter.py:177 | deleting `releaseTime` is a no-op when it is missing or `None`, and removes it otherwise |
| JsonFormatter.WithVersionMeaning | jsonformatter.py:157-167 | the version is 1.0 when there is no version number; the major version with minor 1 when there is no minor; one minor more otherwise |
| JsonFormatter.VersionSteps | jsonformatter.py:157-167 | the version lines, spelled out on their two keys |
| JsonFormatter.StatusKeysDistinct | jsonformatter.py:157-177 | the status keys differ from one another and from `id` |
| JsonFormatter.KeepIdValue | jsonformatter.py:174-176 | writing `id` back with its own value changes nothing |
| JsonFormatter.SetSame | jsonformatter.py:162 | setting a top-level key to its own value changes nothing |
| JsonFormatter.UpdateSame | jsonformatter.py:176 | a map updated with its own value is unchanged |
| JsonFormatter.AsDraftValue | jsonformatter.py:173 | marking a draft sets `versionState` to `DRAFT` |
| JsonFormatter.WithStatusValue | jsonformatter.py:157-177 | the status lines fail exactly where the minor version cannot be advanced |
| JsonFormatter.StatusFieldsMeaning | jsonformatter.py:157-177 | the status lines set the version, the draft state and `id`, delete `releaseTime` unless `None`, and keep every other key |
| JsonFormatter.WithStatusMeaning | jsonformatter.py:157-177 | on a dict the status lines set the version numbers, set `versionState` to `DRAFT`, keep `id`, and delete `releaseTime` unless it is `None`; they fail only where `version_minor + 1` raises, and leave every other key alone |
| JsonFormatter.Blocked3 | jsonformatter.py:139 | a three-key path is blocked exactly when the root or a node on the way is not a dict |
| JsonFormatter.ReachThrough | jsonformatter.py:139-141 | a walk that reaches a node passes through dicts only |
| JsonFormatter.WriteBlockWritable | jsonformatter.py:139-141 | a block can be written exactly when the document, its `metadataBlocks` and the block are dicts or missing; otherwise `TypeError` |
| JsonFormatter.BlockCreatable | jsonformatter.py:139 | the dicts down to a block's `fields` can be created exactly when nothing on the way is a non-dict |
| JsonFormatter.Prefixes3 | jsonformatter.py:139 | the prefixes of a three-key path |
| JsonFormatter.WriteBlockContents | jsonformatter.py:139-141 | a written block holds the given fields and name, and every path branching off it reaches what it did |
| JsonFormatter.BlockNamesDistinct | jsonformatter.py:139-154 | the two block names and `metadataBlocks` differ |
| JsonFormatter.KeysDistinct | jsonformatter.py:157-177 | the status keys are not `metadataBlocks` |
| JsonFormatter.ReleaseNotBlocks | jsonformatter.py:177 | `releaseTime` is not `metadataBlocks` |
| JsonFormatter.WriteBlocksWritable | jsonformatter.py:139-155 | both blocks can be written exactly when the document, its `metadataBlocks` and each block to write are dicts or missing; otherwise `TypeError` |
| JsonFormatter.CitationKeepsGeo | jsonformatter.py:139-141 | writing the citation block keeps the geospatial block |
| JsonFormatter.WriteBlocksContents | jsonformatter.py:139-155 | the citation block holds the citation fields; the geospatial block holds the coverage field when a country is given and is unchanged otherwise; every path outside the blocks is unchanged |
| JsonFormatter.TopFrame | jsonformatter.py:139-155 | outside the blocks every other top-level key is unchanged |
| JsonFormatter.SetRowOutcome | jsonformatter.py:108-178 | `setrow` raises what building the citation fields raises; with them built, it succeeds exactly when the document can take the blocks and its minor version can be advanced, and raises `TypeError` otherwise |
| JsonFormatter.BlocksKeepVersion | jsonformatter.py:139-157 | writing the blocks keeps the version numbers |
| JsonFormatter.WithStatusOutcome | jsonformatter.py:157-177 | the status lines fail exactly when the minor version cannot be advanced, with `TypeError` |
| JsonFormatter.StatusKeepsBlocks | jsonformatter.py:157-177 | the status lines leave `metadataBlocks` alone |
| JsonFormatter.StatusKeepsPath | jsonformatter.py:157-177 | the status lines leave every path under `metadataBlocks` alone |
| JsonFormatter.CitationThroughStatus | jsonformatter.py:139-177 | the citation block survives the status lines |
| JsonFormatter.OthersThroughStatus | jsonformatter.py:139-177 | every other block survives the status lines |
| JsonFormatter.OtherBlockOutside | jsonformatter.py:139-155 | another block lies outside the two written |
| JsonFormatter.SetRowCitation | jsonformatter.py:108-178 | after `setrow`, the citation block holds the citation fields under `Citation Metadata`, and every block other than citation and geospatial is untouched |
| JsonFormatter.SetRowGeospatial | jsonformatter.py:143-155 | after `setrow`, the geospatial block holds the coverage field under `Geospatial Metadata` when the row names a country, and is unchanged otherwise |
| JsonFormatter.StatusOverBlocks | jsonformatter.py:139-177 | the status lines over the written blocks, read against the document before them |
| JsonFormatter.SetRowStatus | jsonformatter.py:157-177 | after `setrow` the study is a draft; its version is 1.0 with no version number, the major with minor 1 with no minor, one minor more otherwise; a release time survives only as `None`; every other top-level entry is unchanged |
| AntislaveryPetitions.NormalOfClean | dataversestudybuilder.py:186 | a value with no capitals and no surrounding whitespace is already in the builder's normal form |
| AntislaveryPetitions.IgnoreNormalised | antislaverypetitions.py:87 | the parser's `ignore_values` are already normalised, so the builder keeps them as they are |
| AntislaveryPetitions.CustomDateParse | antislaverypetitions.py:59-67 | a date parsed from the cleaned cell is date-shaped; when the cleaned cell parses, that is the result, and the `0229` fallback is tried only when it does not |
| AntislaveryPetitions.ReplaceShort | antislaverypetitions.py:60 | a cell shorter than `CHECK WITH INDEX` is untouched by its removal |
| AntislaveryPetitions.ReplaceKeepsOut | antislaverypetitions.py:60 | removing a pattern adds no character |
| AntislaveryPetitions.ParseDateShape | antislaverypetitions.py:62 | a date `ParseDate` gives is a checked `YYYY-MM-DD` date or a four-digit year |
| AntislaveryPetitions.PartShape | antislaverypetitions.py:62 | the same for one comma-free part of a cell |
| AntislaveryPetitions.FourDigitsExact | antislaverypetitions.py:62 | a four-digit year match without a trailing newline is exactly four digits |
| AntislaveryPetitions.StrippedEnd | antislaverypetitions.py:60 | a stripped cell does not end in a newline |
| AntislaveryPetitions.CustomDateShape | antislaverypetitions.py:59-67 | a date `CustomDateParse` gives is a checked `YYYY-MM-DD` date or a four-digit year |
| AntislaveryPetitions.CleanOfDigits | antislaverypetitions.py:60 | a string that starts and ends with digits is untouched by both strips |
| AntislaveryPetitions.ParseDateIso | antislaverypetitions.py:62 | `ParseDate` gives a checked date back unchanged |
| AntislaveryPetitions.ParsedDateIsFixed | antislaverypetitions.py:59-67 | `CustomDateParse` gives a parsed date back unchanged |
| AntislaveryPetitions.CustomDateParseTwice | antislaverypetitions.py:96-148 | parsing a parsed date again changes nothing, so the action dates parsed a second time at line 148 are those parsed at line 99 |
| AntislaveryPetitions.HasIsHasCell | antislaverypetitions.py:97 | `curr.Has(row, key)`: the column is present and its cell is neither blank nor an ignored value |
| AntislaveryPetitions.CleanedDates | antislaverypetitions.py:95-103 | the date cleanup keeps the row's columns and every cell outside the date columns |
| AntislaveryPetitions.CleanedDatesStep | antislaverypetitions.py:96-103 | cleaning one more column is one more cell rewrite of the partly cleaned row |
| AntislaveryPetitions.DateFieldsDistinct | antislaverypetitions.py:95 | `date_fields` names no column twice |
| AntislaveryPetitions.NotCleaned | antislaverypetitions.py:97-103 | a cell `Has` refuses, or whose date does not parse, is left as it is |
| AntislaveryPetitions.CleanCell | antislaverypetitions.py:97-103 | one column's cleanup: the cell is rewritten to its cleaned value, and a missing column is left missing |
| AntislaveryPetitions.CleanDateColumns | antislaverypetitions.py:95-103 | the date loop rewrites the date cells of `rows[n]` in place and leaves every other row alone |
| AntislaveryPetitions.CleanColumns | antislaverypetitions.py:96-103 | the same loop over any list of distinct columns |
| AntislaveryPetitions.NextColumn | antislaverypetitions.py:96 | the next column of the loop has not been cleaned yet |
| AntislaveryPetitions.CleanedCellTwice | antislaverypetitions.py:97-103 | cleaning a cleaned cell changes nothing |
| AntislaveryPetitions.CleanedDatesTwice | antislaverypetitions.py:95-103 | cleaning the date columns of a cleaned row changes nothing |
| AntislaveryPetitions.ActionDate | antislaverypetitions.py:145-152 | one action column adds at most one date |
| AntislaveryPetitions.ActionDatesOf | antislaverypetitions.py:143-152 | there are no more action dates than action columns |
| AntislaveryPetitions.HadColumns | antislaverypetitions.py:145-146 | the action columns marked used are columns of the row |
| AntislaveryPetitions.MonthDays | antislaverypetitions.py:168-169 | the days of the month given by `calendar.monthrange` are 28 to 31; the only failure is `ValueError` |
| AntislaveryPetitions.SpacedYearMonthDays | antislaverypetitions.py:168-169 | `monthrange(int('+ 12'), int('06'))` gives 30 days: Python 2 reads `+ 12` as the year 12 |
| AntislaveryPetitions.DigitsOf | antislaverypetitions.py:162-169 | digits joined to digits are digits |
| AntislaveryPetitions.PyIntDigits | antislaverypetitions.py:169 | `int` of a string of digits is its value |
| AntislaveryPetitions.DigitsBound | antislaverypetitions.py:169 | `n` digits have a value below `10^n` |
| AntislaveryPetitions.IsoOf | antislaverypetitions.py:161-169 | a year, a two-digit month and a two-digit day that name a real day form a checked date |
| AntislaveryPetitions.YearBound | antislaverypetitions.py:169 | a four-digit year is at most 9999, so `monthrange` accepts it |
| AntislaveryPetitions.MonthSlices | antislaverypetitions.py:169 | `int(max_date[:4])` and `int(max_date[5:7])` of `YYYY-MM` read the year and the month |
| AntislaveryPetitions.MonthDaysOf | antislaverypetitions.py:169 | `monthrange` of `YYYY-MM` gives the days of that month |
| AntislaveryPetitions.StartOfYear | antislaverypetitions.py:161-164 | a year as the earliest date becomes its 1 January |
| AntislaveryPetitions.TwoDigits | antislaverypetitions.py:169 | the value of two digits |
| AntislaveryPetitions.ThirtyOne | antislaverypetitions.py:168 | `str(31)` is `31` |
| AntislaveryPetitions.EndPadding | antislaverypetitions.py:165-169 | a year as the latest date gets `-12` and then `-31` |
| AntislaveryPetitions.Suffix1231 | antislaverypetitions.py:165-169 | `-12` and then `-31` is `-12-31` |
| AntislaveryPetitions.EndIsIso | antislaverypetitions.py:165-169 | 31 December of a year is a checked date |
| AntislaveryPetitions.EndOfYear | antislaverypetitions.py:165-169 | a year as the latest date becomes its 31 December, a checked date |
| AntislaveryPetitions.PeriodEnd | antislaverypetitions.py:159-169 | with the dash test on the latest date, the period ends on 31 December of a latest year and on a latest checked date itself, whatever the earliest date is |
| AntislaveryPetitions.PeriodOfDates | antislaverypetitions.py:156-171 | with the dash test on the latest date, dates that are all checked dates or years give a period from the first day of the earliest to the last day of the latest, both checked dates, in order |
| AntislaveryPetitions.MinMaxOfTwo | antislaverypetitions.py:159-160 | `max` and `min` of two ordered dates |
| AntislaveryPetitions.AsWrittenEndsInMonth | antislaverypetitions.py:161-169 | as written, a year as the latest date and an unparsed seven-to-nine-character creation date without a dash as the earliest give a period that ends in a month, not a day; the corrected period ends on 31 December |
| AntislaveryPetitions.Year1836 | antislaverypetitions.py:165 | `1836` is a year |
| AntislaveryPetitions.DigitsHaveNoDash | antislaverypetitions.py:167 | digits hold no dash |
| AntislaveryPetitions.AsWrittenCounterexample | antislaverypetitions.py:167 | the action date `1836` and the unparsed creation date `1835041` give, as written, the period `1835041` to `1836-12`; corrected, it ends on `1836-12-31` |
| AntislaveryPetitions.AsWrittenOfDates | antislaverypetitions.py:158-169 | when every date is a checked date or a year, the period as written is the corrected period |
| AntislaveryPetitions.AsWrittenCrash | antislaverypetitions.py:158-169 | the action date `1836` and the unparsed creation date `c. 1840`: as written, `int('c. 1')` raises `ValueError`; corrected, the period is `1836-01-01` to `c. 1840` |
| AntislaveryPetitions.PeriodKeepsText | antislaverypetitions.py:158-169 | with the dash test on the latest date, a latest date of seven or more characters without a dash ends the period unchanged, and an earliest year or checked date starts it on a checked date |
| AntislaveryPetitions.OrderOfTwo | antislaverypetitions.py:158-159 | `min` and `max` of two dates in order are the first and the second |
| AntislaveryPetitions.NoYearIn | antislaverypetitions.py:168-169 | `c. 1840` has no dash, no month is added to it, and `int` of its first four characters raises `ValueError` |
| AntislaveryPetitions.IsoHasDash | antislaverypetitions.py:163 | a checked date contains a dash |
| AntislaveryPetitions.GeoUnit | antislaverypetitions.py:176-179 | the unit is `State` exactly for `Massachusetts`, and `City/Town` otherwise |
| AntislaveryPetitions.GeoFields | antislaverypetitions.py:172-179 | the coverage is set exactly when `Has` accepts `Location`, as the stripped cell, and the unit exactly when the coverage is set, derived from it; nothing else is set |
| AntislaveryPetitions.RunEnd | antislaverypetitions.py:256 | the group `(.*)` reaches from its start up to the first newline |
| AntislaveryPetitions.LastSuffix | antislaverypetitions.py:256 | the greedy group backs off to the last place where the suffix matches, or there is none |
| AntislaveryPetitions.CitationReference | antislaverypetitions.py:256-259 | a citation matches only when it starts with the archive's prefix |
| AntislaveryPetitions.SuffixHasNoNewline | antislaverypetitions.py:256 | the suffix of the pattern holds no newline |
| AntislaveryPetitions.LastSuffixFinds | antislaverypetitions.py:256 | the last place where the suffix matches is found |
| AntislaveryPetitions.CitationReferenceOf | antislaverypetitions.py:256-259 | a citation of the prefix, a reference and the suffix gives back that reference stripped of ` ;.,` |
| AntislaveryPetitions.Part | antislaverypetitions.py:258-266 | each half of the title gives at most one part |
| AntislaveryPetitions.TitleFrom | antislaverypetitions.py:267-270 | the title is the reference, the petitioner, both joined by `, `, or `(untitled)` when there is neither |
| AntislaveryPetitions.RowReferenceOf | antislaverypetitions.py:253-260 | the reference of a row whose citation has the archive's form |
| AntislaveryPetitions.TitleOfCitation | antislaverypetitions.py:252-270 | a row with a citation of the archive's form and no signatures is titled by its reference alone |
| AntislaveryPetitions.TitleOfCitationSigned | antislaverypetitions.py:252-270 | with signatures, the title is the reference, `, Petition of ` and the first signature |
| AntislaveryPetitions.IdPart | antislaverypetitions.py:295 | an id part has no space and at most 50 characters |
| AntislaveryPetitions.IdParts | antislaverypetitions.py:293-295 | one part per id column, in order |
| AntislaveryPetitions.IdPartKeepsOut | antislaverypetitions.py:295 | a part holds a character only when its column does |
| AntislaveryPetitions.LocalIdSplits | antislaverypetitions.py:293-296 | when no id column holds a `\|`, the local id splits on `\|` back into its four parts |
| AntislaveryPetitions.LocalIdDistinguishes | antislaverypetitions.py:293-296 | such rows with different id parts get different local ids |
| AntislaveryPetitions.StripPair | antislaverypetitions.py:229-231 | a wrapped identification loses both ends, and one that is not wrapped is kept; the result is a piece of the input |
| AntislaveryPetitions.StripPairs | antislaverypetitions.py:228-231 | the pairs tried in order shorten the identification or leave it as it is |
| AntislaveryPetitions.Pass | antislaverypetitions.py:227-231 | one pass shortens the identification or leaves it as it is |
| AntislaveryPetitions.StripOnce | antislaverypetitions.py:228-231 | the `for charpair` loop is one pass |
| AntislaveryPetitions.CleanIdentification | antislaverypetitions.py:224-231 | the `while` loop stops at the identification with every wrapping pair removed |
| AntislaveryPetitions.CleanIdentifications | antislaverypetitions.py:222-232 | one cleaned identification per identification, in order |
| AntislaveryPetitions.StripPairsFixed | antislaverypetitions.py:226-231 | an identification that a pass leaves alone is wrapped by none of the pairs |
| AntislaveryPetitions.UnwrapUnwrapped | antislaverypetitions.py:224-232 | a cleaned identification is wrapped in no `[]`, `()` or `""` |
| AntislaveryPetitions.OccursIn | antislaverypetitions.py:231 | a piece of a piece is a piece |
| AntislaveryPetitions.StripPairsInfix | antislaverypetitions.py:228-231 | a pass leaves a piece of its input |
| AntislaveryPetitions.UnwrapInfix | antislaverypetitions.py:224-232 | a cleaned identification is a piece of the original |
| AntislaveryPetitions.ColumnCoverage | antislaverypetitions.py:305-330 | a `RuntimeError` exactly when some study used a column that no row has; otherwise the used columns and the unused input columns, which split the input columns |
| AntislaveryPetitions.CoverageSets | antislaverypetitions.py:322-326 | no bad report exactly when the used columns are among the input columns, which the used and the unused then split |
| AntislaveryPetitions.CoverageOfStudies | antislaverypetitions.py:305-330 | the report does not fail when each study uses only columns of its row |
| AntislaveryPetitions.Used | antislaverypetitions.py:145-146 | a column is marked used exactly when `Has` accepts it |
| AntislaveryPetitions.PeriodFields | antislaverypetitions.py:156-171 | the period as written fails only with the `ValueError` of `int` or `monthrange` |
| AntislaveryPetitions.RowOutput | antislaverypetitions.py:129-296 | the modelled fields of a row: a `ValueError` only; `Title` and `Local ID` always set; the period start set exactly when the row has a creation date or an action date |
| AntislaveryPetitions.StartNotGeo | antislaverypetitions.py:129-179 | the geography does not overwrite the period start |
| AntislaveryPetitions.Stamp | antislaverypetitions.py:268-296 | setting `Title` and `Local ID` keeps every other field |
| AntislaveryPetitions.CategoryKeywords | antislaverypetitions.py:233 | one `signatory-category` keyword per identification, cleaned, in order |
| AntislaveryPetitions.RowColumns | antislaverypetitions.py:91-296 | a study of a row reports only columns the row has |
| AntislaveryPetitions.StudyAsState | antislaverypetitions.py:299-300 | a finalised builder holds the study of its row |
| AntislaveryPetitions.ActionDatesStep | antislaverypetitions.py:144-152 | one more action column adds its date |
| AntislaveryPetitions.HadColumnsStep | antislaverypetitions.py:144-146 | one more action column adds its use |
| AntislaveryPetitions.AddActionDates | antislaverypetitions.py:143-155 | the parsed action dates, the used columns, and the `Actions taken on dates` fragment when there are any |
| AntislaveryPetitions.CollectActionDates | antislaverypetitions.py:143-152 | the loop keeps the action dates that parse and marks each present action column used |
| AntislaveryPetitions.ActionColumn | antislaverypetitions.py:145-152 | one pass of that loop |
| AntislaveryPetitions.UnionAssoc | antislaverypetitions.py:146 | set union is associative |
| AntislaveryPetitions.SetPeriod | antislaverypetitions.py:156-171 | the period fields are set exactly when the code as written can compute them, and the `ValueError` of `int` or `monthrange` leaves the output as it was |
| AntislaveryPetitions.SpacedYearPeriod | antislaverypetitions.py:156-171 | a lone date `+ 12-06` gets the period `+ 12-06-01` to `+ 12-06-30` |
| AntislaveryPetitions.SpacedYearStart | antislaverypetitions.py:161-166 | `+ 12-06` gets the day `-01` as the earliest date and no month as the latest |
| AntislaveryPetitions.SpacedYearEnd | antislaverypetitions.py:167-169 | `+ 12-06` as the latest date ends on day 30 of its month |
| AntislaveryPetitions.PadPeriod | antislaverypetitions.py:158-169 | the padding steps give the period as written |
| AntislaveryPetitions.PadMaxDate | antislaverypetitions.py:165-169 | the month added to the latest date, then its last day when it is short and the padded earliest date has a dash |
| AntislaveryPetitions.SetGeography | antislaverypetitions.py:172-179 | the geography fields laid over the output, `Location` marked used when present |
| AntislaveryPetitions.UpdateTwo | antislaverypetitions.py:177-179 | two updates of distinct keys are a union with their map |
| AntislaveryPetitions.GeoFieldsOver | antislaverypetitions.py:172-179 | the geography over output that has no coverage yet |
| AntislaveryPetitions.AddIdentifications | antislaverypetitions.py:219-236 | one cleaned `signatory-category` keyword per identification and the raw list in the description |
| AntislaveryPetitions.Tagged | antislaverypetitions.py:233 | `(vocab, value)` for each value, in order |
| AntislaveryPetitions.CategoryKeywordsTagged | antislaverypetitions.py:233 | the category keywords are the cleaned identifications, tagged |
| AntislaveryPetitions.AddKeywords | antislaverypetitions.py:233 | adding the keywords appends them in order and marks the builder dirty when there are any |
| AntislaveryPetitions.ReferencePart | antislaverypetitions.py:253-260 | the reference part of the title, the citation marked used |
| AntislaveryPetitions.PetitionerPart | antislaverypetitions.py:261-266 | the petitioner part of the title, the signatures marked used |
| AntislaveryPetitions.SetTitle | antislaverypetitions.py:252-270 | `Title` is set to the title of the row; the rest of the output is kept |
| AntislaveryPetitions.SetLocalId | antislaverypetitions.py:293-296 | `Local ID` is set to the local id of the row; the rest is kept |
| AntislaveryPetitions.ParseRow | antislaverypetitions.py:93-300 | a new finalised builder holding the study of the row, or the `ValueError` of the period as written |
| AntislaveryPetitions.NoCoverageYet | antislaverypetitions.py:129-172 | the fields set before the geography hold no coverage |
| AntislaveryPetitions.PeriodKeys | antislaverypetitions.py:170-171 | the period sets only its two fields |
| AntislaveryPetitions.CreationKeys | antislaverypetitions.py:129-130 | the creation date sets only the period start and the production date |
| AntislaveryPetitions.AddDates | antislaverypetitions.py:129-155 | the creation date fields, the action dates and their fragment on a new builder |
| AntislaveryPetitions.AddPlaceAndNames | antislaverypetitions.py:172-296 | the geography, the identifications, the title and the local id over the output |
| AntislaveryPetitions.EmptyConcat | antislaverypetitions.py:90 | the empty list before a list |
| AntislaveryPetitions.ParseAntislaveryPetitions | antislaverypetitions.py:70-302 | one finalised, distinct builder per row holding that row's study, each row's date cells rewritten in place; a `ValueError` of the period as written ends the parse at that row, its date cells already rewritten |
| AntislaveryPetitions.MappedMore | antislaverypetitions.py:300 | appending a row and its study keeps them paired |
| AntislaveryPetitions.Studies | antislaverypetitions.py:300 | the studies are paired with the rows, index by index |
| AntislaveryPetitions.MappedAt | antislaverypetitions.py:300 | a paired row gives its study |
| AntislaveryPetitions.ParseOne | antislaverypetitions.py:91-300 | one loop pass: the date cells of the row rewritten, then its study appended |
| AntislaveryPetitions.CleanedUpTo | antislaverypetitions.py:90-103 | the rows after `n` passes of the loop, the first `n` with their date cells rewritten; there are as many as before |
| AntislaveryPetitions.CleanedStep | antislaverypetitions.py:90-103 | one more pass rewrites the date cells of one more row |
| AntislaveryPetitions.StudyUsesRowColumns | antislaverypetitions.py:91-296 | a study uses only columns its row has |
| AntislaveryPetitions.ParseCoversColumns | antislaverypetitions.py:305-330 | the coverage report of a complete parse never raises the `BUG` error |
| AntislaveryPetitions.RowPeriod | antislaverypetitions.py:156-171 | a row whose dates are checked dates or years gets a period whose two ends are checked dates |
| AntislaveryPetitions.PeriodFieldsIso | antislaverypetitions.py:156-171 | both period fields are then checked dates, the code as written agreeing with the corrected rule |
| AntislaveryPetitions.OutputKeepsPeriod | antislaverypetitions.py:170-296 | a period field no later field overwrites reaches the output |

## Left out

- Network calls are not modelled: `dataversehelper.py`, `dataversewrapper.py` and the `dataverse` library. The Dataverse server (`UpdateScript.Server`) and the search engine (`Resolver.DoiSearch`) are parameters that give their answers.
- `timeout.py` is not part of this model. Its `SIGALRM` alarm is an outcome parameter per row. A row whose alarm fires is modelled as having had no effect.
- File I/O is not modelled: `tsvfile.ReadDicts`, `WriteDicts`, `ReadOrInit`, `WriteXmlFile`, `WriteStudiesToXmlFolders`, the debug JSON file of `update` and the rewrite of the DOI update tsv. The rows and tables are values.
- Command-line handling is not modelled: `optparse`, `sys.argv`, the module-level setup of `update.py` (reading `doi_lookup` and the rows, the `debug_local_ids` filter), `RunMain` and `petitiondoiresolver.py`'s main loop.
- The module self-tests (`Test`, `TestXML`, `TestDataverseStudyBuilder`, `TestAntislaveryPetitions`) are not modelled.
- Printing and logging are not modelled: every `print`, the verbose output of `jsondiff`, `jsondiff2` (which only prints) and the coverage printout of `ColumnCoverage`.
- `time.sleep` and `datetime.utcnow` are not modelled. The wait after a time-out is counted, not performed. Today's date is a parameter of `setrow`.
- StudyBuilder.ParseDate: the scientific-notation branch (`float` of the string) is not modelled, because it needs floating point. It stands as a `RuntimeError`, which `CustomDateParse`, `CleanedCell` and `ActionDate` treat like the `ValueError` caught at antislaverypetitions.py:63, :100 and :148, keeping the cell as text. The source differs on two inputs: `inf` reaches `int(float('inf'))`, whose `OverflowError` nothing catches, so the whole parse ends; and `1.8360401E7` becomes the date `1836-04-01`. The model keeps both cells as text.
- `coerce_utf8`, `FormatToXml.ForceUTF8`, `ToString`, `SafeFilename` and `OutputAsXmlString` are not modelled. They deal with encodings and lxml serialisation. Strings are sequences of characters with no encoding.
- XmlFormatter.XmlRootNode: the `nsmap` of the root is not modelled. Namespaced attribute names are spelled `{uri}name`.
- JSON documents, rows and XML trees are values. The in-place updates of the source (`jpath` set and delete, `list.insert`, `row[...] = ...`) are modelled as functions that return the new value. Aliasing between a document and its parts is not captured. The antislavery row array is the exception: it is an `array` updated in place.
- Json.JValue: JSON numbers are integers only. Floating-point numbers are not represented, so no float value of a document is modelled.
- Regular expressions are modelled as functions written for each pattern, not as a general regex engine: the keyword pattern, the `ParseDate` patterns, the citation pattern and the tag and space patterns of the resolver.
- AntislaveryPetitions.ParseAntislaveryPetitions: the model sets only these fields of a study: the dates, the period, the geography, the identifications, the title and the local id, with the description fragments and keywords that go with them. It does not set the constant fields (`antislaverypetitions.py:106-117`), the `PDS link` fields and fragment (115-124), the `Publication Citation` (125-128), the description and keyword entries of the other columns (131-142, 180-218, 271-272), the legislative action keywords (138-142), the prayer format (237-243), the signature keywords and fragment (244-251) or the two booleans (273-290). The `author`, `contact_email` and `extra_keyword_column` parameters are therefore absent.
- AntislaveryPetitions.CustomDateParseTwice: requires that the cell holds no newline. With a newline before a trailing `?`, the first parse strips the `?` and leaves the newline at the end, and the second parse strips that newline, so parsing twice can differ from parsing once.
- AntislaveryPetitions.CleanedDatesTwice: requires that no cell of the row holds a newline, for the same reason.
- Update.Items: a dict's keys are taken in sorted order, where Python 2 takes them in hash order. No outcome depends on that order: a key is a string, so with a date field to look for `block['typeName']` raises `TypeError` at whichever key comes first, and with none the keys are not read.
- Update.AvoidUpdateOnDates: rewrites of fields the local list already holds all share the sort key `(1, 1)` of `update.py:146-147`. The model takes them in the order of `citation_date_fields`. Python takes them in dict order, which the model does not fix.
- JsonFormatter.SetRow: the commented-out lines of `setrow` and the unused `now_str` are not modelled.
- `update`'s `show_diff` flag only controls printing and is not modelled.

## Findings

| source | as written | input that shows it | evidently intended | confidence | as-written member | corrected member |
|---|---|---|---|---|---|---|
| antislaverypetitions.py:167 | the day of the month is added to `max_date` only when `min_date` contains `-` | action date `1836` and a creation date `1835041` that did not parse: the period ends on `1836-12` | test `'-' in max_date`, so that the period ends on `1836-12-31` | not executed | AntislaveryPetitions.AsWrittenCounterexample | AntislaveryPetitions.PeriodOfDates |
| antislaverypetitions.py:167 | `monthrange(int(max_date[:4]), int(max_date[5:7]))` is called whenever `min_date` contains `-`, whatever `max_date` holds | action date `1836` and a creation date `c. 1840` that did not parse: `int('c. 1')` raises `ValueError` and ends the whole parse | test `'-' in max_date`, so that a latest date kept as text ends the period as it is | not executed | AntislaveryPetitions.AsWrittenCrash | AntislaveryPetitions.PeriodKeepsText |
| update.py:151-156 | after inserting the published block at index `old` of a shorter local list, the log line reads `citation_path/old/value` of the local metadata | published citation fields `[title, title, distributionDate]` and an empty local list: the block lands at index 0 and the read of index 2 raises `IndexError` | the block is inserted (Python's `insert` clamps to the end) and the update goes on | not executed | Update.AsWrittenFailsPastEnd | Update.DatesCarried |
| update.py:284-292 | `last_fail_timeout = False` is set at the top of every loop pass, before `if last_fail_timeout` reads it | a row that times out followed by any row: no 30-second wait happens | wait 30 seconds before the row that follows a time-out | not executed | UpdateScript.NeverWaits | UpdateScript.WaitAfterTimeOut |
