# Damaged & rejected goods intake — record list model

The intake app is a Streamlit script. It keeps a list of goods-intake
records in a JSON data file. Three things happen to that list:

- **Submit.** A record is built from five form fields (item name, HS code,
  quantity, port, reason). Its `image_name` key is set only when an image
  was uploaded. The script loads the stored list, appends the record and
  saves the list.
- **Review.** The stored list is filtered by a search term. A record is
  shown when the lower-cased term is a substring of its lower-cased item
  name or of its lower-cased port.
- **Delete.** Each shown record has a delete button. It removes the first
  record of the stored list that is structurally equal to the shown record
  (`list.remove`), then saves the list.

Modules:

- `Text` (text.dfy): ASCII lower-casing and Python's substring test.
- `Records` (records.dfy): the record type and how it is built.
- `Search` (search.dfy): the filter and its properties.
- `Store` (store.dfy): `list.remove` as a function, the in-memory list as
  the class `EntryList` (updated in place), and the data file as the class
  `DataFile`.
- `App` (app.dfy): one run of the submit, review and delete actions
  against a `DataFile`.

`Search.Filter` recurses on the last element rather than the first, which
makes the kept positions (`KeptIndices`) easy to state.
`Search.FilterLeftToRight` is the comprehension as written, taking the
records left to right. `Search.FilterIsComprehension` proves that the two
give the same list.

## Model

| member | source | states |
|---|---|---|
| Text.LowerChar | app.py:56 | the result is never an upper-case ASCII letter; a non-letter is unchanged; an upper-case letter becomes the same letter in lower case |
| Text.Lower | app.py:56 | same length as the input; each character is lower-cased on its own; no upper-case ASCII letter is left |
| Text.LowerIdempotent | app.py:56 | lower-casing an already lower-cased string changes nothing |
| Text.OccursImpliesContains | app.py:56 | any position where the needle occurs makes the substring test succeed |
| Text.ContainsImpliesOccurs | app.py:56 | when the substring test succeeds, the needle occurs at some position |
| Text.ContainsIffOccurs | app.py:56 | the substring test (`needle in hay`) holds exactly when the needle occurs at some position of the haystack |
| Text.Contains | app.py:56 | some position of the haystack starts with the needle; the empty needle is in every string, and a needle longer than the haystack is in none |
| Records.BuildEntry | app.py:33-41 | the record copies item name, HS code, quantity, port and reason from the inputs; it has an image name exactly when an image was uploaded, and that name is the upload's name |
| Search.Matches | app.py:56 | the lower-cased term is a substring of the lower-cased item name or of the lower-cased port; the empty term matches every record |
| Search.MatchesIgnoresTermCase | app.py:56 | a record matches a term exactly when it matches the term's lower-cased form |
| Search.Filter | app.py:55-57 | the result is no longer than the data; every kept record is in the data and matches the term |
| Search.FilterLeftToRight | app.py:55-57 | the comprehension as written: the records of the data taken left to right, each kept exactly when it matches the term; no longer than the data |
| Search.FilterSnoc | app.py:55-57 | one more record at the end of the data is kept at the end of the result exactly when it matches |
| Search.FilterAppend | app.py:55-57 | filtering a concatenation is the concatenation of the filtered parts |
| Search.FilterIsComprehension | app.py:55-57 | the filter equals the comprehension taken left to right |
| Search.KeptIndices | app.py:55-57 | the kept positions are strictly increasing and within the data, one per kept record |
| Search.FilterReadsKeptIndices | app.py:55-57 | the k-th kept record is the data's record at the k-th kept position |
| Search.KeptIndexMatches | app.py:55-57 | one given position is kept exactly when the record there matches the term |
| Search.KeptIndicesAreMatches | app.py:55-57 | a position is kept exactly when the record there matches the term |
| Search.FilterIsSubsequence | app.py:55-57 | the filtered list is an order-preserving subsequence of the data |
| Search.FilterMembership | app.py:55-57 | a record is in the filtered list exactly when it is in the data and its item name or port contains the term, all compared in lower case |
| Search.FilterEmptyTerm | app.py:55-57 | the empty search term keeps every record, in the original order |
| Search.FilterIgnoresTermCase | app.py:56 | filtering by a term and by its lower-cased form gives the same list |
| Store.RemoveFirst | app.py:67 | the length drops by one when the value is present and is unchanged otherwise |
| Store.FirstIndex | app.py:67 | the position holds the value and no earlier position does |
| Store.RemoveFirstSplices | app.py:67 | removing a present value cuts out exactly its first position; the records before and after it stay, in order |
| Store.RemoveFirstAbsent | app.py:67 | removing an absent value leaves the list unchanged |
| Store.RemoveFirstMultiset | app.py:67 | removal takes one copy of the value out of the multiset of records when the value is present, and none otherwise |
| Store.CutMultiset | app.py:67 | cutting out one position takes one copy of its record out of the multiset |
| Store.DuplicateRemovalKeepsMultiset | app.py:59-67 | deleting the record shown from position k by value leaves the same multiset as cutting out position k |
| Store.DuplicateRemovalReorders | app.py:59-67 | with duplicates the order can differ: deleting the second `a` of `[a, b, a]` by value leaves `[b, a]` |
| Store.EntryList.constructor | app.py:44 | the in-memory list starts as the loaded records |
| Store.EntryList.Append | app.py:45 | the list gains the entry at its end; the length grows by one and all earlier records are unchanged, in order |
| Store.EntryList.Remove | app.py:67 | the list becomes the list with the first equal record removed; `found` says whether one existed, and when none did the list is unchanged (where Python raises ValueError) |
| Store.DataFile.Missing | app.py:11-15 | the state before any save: no data file |
| Store.DataFile.Contents | app.py:11-15 | the saved list when the file exists, the empty list otherwise |
| Store.DataFile.Load | app.py:11-15 | returns what the file currently holds for loading: the saved list, or the empty list when there is no file |
| Store.DataFile.Save | app.py:17-19 | the file exists afterwards and holds exactly the given list, so the next load returns it |
| Store.SaveThenLoad | app.py:11-19 | saving a list and then loading gives back exactly that list |
| App.Submit | app.py:32-46 | the file afterwards holds the previously loadable records followed by exactly one new record built from the form; the earlier records are unchanged, in order |
| App.Show | app.py:52-57 | the displayed list is the filter of the loaded records; no longer than them, and holding exactly the stored records whose item name or port contains the term |
| App.Delete | app.py:55-68 | for any displayed position, the stored list loses exactly one record: the first one equal to the displayed record |
| App.DeleteRemovesAtOrBeforeShown | app.py:55-68 | the displayed record is always in the stored list; the record removed sits at or before the position it was displayed from, and at that position exactly when no equal record comes earlier; the others keep their relative order |

## Left out

- Streamlit widgets, titles, expanders, success messages, image display
  and the rerun after a delete (app.py:21-29, 47, 50, 59-65, 69-70). These
  are rendering. Widget values arrive as method parameters.
- JSON serialisation and file I/O (app.py:6, 12-19, 42-43). The data file
  is modelled as an "exists" flag plus the record list it holds. Formatting
  with indentation, parsing, a corrupt file, and writing the uploaded
  image's bytes under `uploads/` are not modelled. `Upload` keeps only the
  file name.
- Text.Lower: models Python's `str.lower()` on ASCII letters only, because
  Unicode case mapping is not modelled. Non-ASCII characters are left as
  they are.
- Records.BuildEntry: quantity is an unbounded integer. The widget's
  `min_value=1` bound is not stated as a precondition, because the record
  building does not depend on it.
- app.py has no valuation-percentage or supply-chain-finance calculator,
  so none is modelled.
- Concurrency and lost updates between several users of the data file are
  not modelled. The script is single-user and has no locking.
