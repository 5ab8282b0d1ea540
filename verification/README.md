# History store model

This project models the analysis-history store of `history_manager.py`. The
store keeps one JSON file per analysis job, named `<id>.json`, in a history
directory. It offers five operations:

- `save_record` writes a record's file;
- `get_record` reads one record back;
- `get_all_records` loads every record file and sorts the records by one field;
- `delete_record` removes one record's file;
- `clear_all_records` removes every record file.

Every failure is caught and becomes `False`, `None` or `[]`.

The directory is a map from file name to file content. A file holds either a
JSON document or bytes that `json.load` rejects. Every operation is a pure
function of the directory and its inputs, and it returns the new directory
with its result. Three things the file system decides are inputs of the
model:

- the order in which `glob("*.json")` lists the files is a `listing`
  parameter;
- a write fault makes `open` fail, or makes `json.dump` fail after `open` has
  truncated the file;
- a set of undeletable names makes `unlink` fail in `clear_all_records`;
- a set of failing names makes `Path.exists` or `unlink` raise in
  `delete_record`.

A directory that cannot be listed is not an input; see "## Left out".

Modules:

- `Wrappers`: `Option`, with `:-` propagation.
- `LexOrder`: Python's `<=` on `str`, which compares code point by code
  point. It is proved to be a total order and is matched against a
  first-difference reference definition.
- `StableSort`: a generic insertion sort with a key function. It models
  `list.sort(key=..., reverse=...)`, which keeps equal keys in input order even
  when `reverse` is true. The sort is proved to be a permutation, sorted and
  stable, and the only arrangement with those three properties.
- `JsonValues`: JSON values.
- `HistoryRecords`:
  - the `HistoryRecord` dataclass;
  - `getattr` on its field names;
  - `asdict`;
  - `HistoryRecord(**data)`;
  - the document written to and read back from a file.
- `HistoryStore`: the directory and the five operations.
- `StoreLaws`: laws relating the operations to one another.
- `ListingLaws`: how `get_all_records` depends on the listing order, and
  worked examples.

## Model

| member | source | states |
|---|---|---|
| LexOrder.LexLeMatchesSpec | history_manager.py:71 | The recursive string order equals the reference order: `a` is a prefix of `b`, or `a` has the smaller code point at the first position where the two differ. |
| LexOrder.LexLeAntisymmetric | history_manager.py:71 | Two strings that are each `<=` the other are equal. |
| LexOrder.LexLeTransitive | history_manager.py:71 | The string order is transitive. |
| LexOrder.LexLeTotal | history_manager.py:71 | Any two strings are comparable one way or the other. |
| LexOrder.LexLeAtFirstDifference | history_manager.py:71 | A string that is smaller at the first position where two strings differ is `<=` the other. |
| StableSort.InsertionSort | history_manager.py:71 | The sort's output has the same elements as its input, is ordered by the key ascending or descending, and keeps equal keys in input order. |
| StableSort.InsertWithKey | history_manager.py:71 | Inserting an element puts it ahead of every element with the same key and leaves the order within every other key unchanged. |
| StableSort.SortedStableUnique | history_manager.py:71 | Two sequences ordered by the same key that keep the same order within every key are equal, so the stable sort's result is unique. |
| HistoryRecords.FieldNamed | history_manager.py:15-26 | `getattr` on a name succeeds exactly for the nine dataclass field names and yields the field with that name. |
| HistoryRecords.AsDict | history_manager.py:41 | `asdict` has exactly the nine field names as keys, and each key holds its field's value, with `None` as `null`. |
| HistoryRecords.FromDict | history_manager.py:56 | `HistoryRecord(**data)` succeeds exactly for the objects the reference predicate accepts. Every key must name a field, the five fields without a default must be present, and each value must fit its field. |
| HistoryRecords.FromDictFields | history_manager.py:23-26 | A built record holds the object's value under each field name, and the default `None` for an absent optional field. |
| HistoryRecords.AsDictRoundTrip | history_manager.py:41-56 | Building a record from `asdict(record)` gives back the same record. |
| HistoryRecords.Encode | history_manager.py:41-56 | Decoding the document written for a record yields that record. |
| HistoryRecords.Decode | history_manager.py:55-56 | A document decodes exactly when it is a JSON object the reference predicate accepts. |
| HistoryRecords.EncodeInjective | history_manager.py:41 | Distinct records are written as distinct documents. |
| HistoryStore.FileName | history_manager.py:39 | A record's file name ends in `.json`, so `glob` lists it, and it starts with the id. |
| HistoryStore.FileNameInjective | history_manager.py:39 | Distinct ids have distinct file names. |
| HistoryStore.SaveRecord | history_manager.py:36-45 | `save_record` returns `True` exactly when the write succeeds. On success the record's file holds the record's document. If `open` fails, the directory is unchanged. If `json.dump` fails, the file is left truncated. No other file changes in any case. |
| HistoryStore.GetRecord | history_manager.py:47-59 | `get_record` returns `None` when the file is missing. It returns a record exactly when the file holds a JSON object the reference predicate accepts, and that record is the decoding of the file's document. |
| HistoryStore.LoadFile | history_manager.py:54-56 | Loading one file gives a record exactly when the file exists and its document decodes, and the record is that decoding. |
| HistoryStore.LoadAll | history_manager.py:65-68 | Loading the listed files succeeds exactly when every file loads. The loaded list then holds, in listing order, one record per file. |
| HistoryStore.SortRecords | history_manager.py:71 | A sort that succeeds returns a permutation of the records, sorted by the field and stable. An empty list, and a single record under a known attribute, come back unchanged. An unknown attribute fails once there is a record. With two or more records, the sort succeeds exactly when every key is text. |
| HistoryStore.GetAllRecords | history_manager.py:61-75 | `get_all_records`, whose defaults are `created_at` and `reverse=True`, returns either `[]` or one record per listed file, never a partial list. One file that fails to load, or an unknown sort field, gives `[]`. |
| HistoryStore.DeleteRecord | history_manager.py:77-86 | `delete_record` returns `True` exactly when neither `Path.exists` nor `unlink` raises on the name. On success the file is absent; on failure nothing changes. No other file changes in any case. |
| HistoryStore.ClearAllRecords | history_manager.py:88-96 | `clear_all_records` returns `True` exactly when no record file resists removal. On success exactly the listed record files are removed: no record file remains, other files are kept and nothing is added. On failure, the files before the first undeletable one stay removed and nothing else is removed. |
| StoreLaws.SaveThenGet | history_manager.py:36-56 | After a successful save, getting the id returns the saved record. After a save whose `json.dump` failed, it returns `None`. |
| StoreLaws.SaveOverwrites | history_manager.py:39-41 | Saving twice under one id leaves the same directory as saving the second record once: one file for the id, holding the latest record. |
| StoreLaws.SaveKeepsOtherRecords | history_manager.py:39-41 | A save, whether it succeeds or fails, does not change what any other id reads back. |
| StoreLaws.SavesToDistinctIdsCommute | history_manager.py:36-42 | Saves to different ids commute, and both records read back. |
| StoreLaws.GetCorruptIsNone | history_manager.py:54-59 | A file that exists but is unreadable, or does not hold a record, reads as `None`. |
| StoreLaws.DeleteThenGet | history_manager.py:77-83 | After a successful delete, the record reads as `None`. |
| StoreLaws.DeleteAbsentIsNoOp | history_manager.py:80-83 | Deleting an id without a file, under a name on which `Path.exists` does not raise, returns `True` and changes nothing. |
| StoreLaws.DeleteIdempotent | history_manager.py:77-83 | A second delete after a successful one returns `True` and changes nothing. |
| StoreLaws.ClearedStoreIsEmpty | history_manager.py:88-93 | A directory without record files lists nothing: `get_all_records` gives `[]` and `get_record` gives `None`. |
| StoreLaws.GetAllEmptyExactly | history_manager.py:61-75 | `get_all_records` is non-empty exactly when there are record files, all of them load, and the sort can run. |
| StoreLaws.GetAllSortsLoadedRecords | history_manager.py:61-72 | When every file loads and the key is usable, the result is a permutation of the loaded records. It is sorted by the key in the requested direction, with equal keys in listing order. |
| StoreLaws.GetAllIsTheStableSort | history_manager.py:61-72 | Any arrangement of the loaded records that is sorted and stable is exactly what `get_all_records` returns. |
| ListingLaws.GetAllIndependentOfListing | history_manager.py:65-71 | When no two records share the sort key, the result is the same whatever order `glob` lists the files in. |
| ListingLaws.NewestFirstExample | history_manager.py:61-71 | Jobs created on 2024-01-01, 2024-03-01 and 2024-02-01 come back newest first under the defaults `created_at` and `reverse=True`. |
| ListingLaws.TiesKeepListingOrder | history_manager.py:65-71 | Two records with the same creation time come back in listing order, even though the sort is in reverse. |
| ListingLaws.EqualKeysFollowListing | history_manager.py:65-71 | For two jobs with equal creation times, the two listing orders give two different results. |

## Left out

- `config.py`: the application settings. The store does not read them.
- File-system I/O is not modelled as such. `Path.exists`, `open`, `glob` and
  `unlink` become map lookups and updates. The failures of `open`,
  `json.dump` and `unlink`, and of `Path.exists` in `delete_record`, are
  inputs: a `WriteFault`, a set of undeletable names, or a set of failing
  names.
- HistoryStore.GetRecord: `Path.exists` raising (a name too long, a
  directory that cannot be searched) is not an input here. The program
  returns `None` then, which the model gives only when the file is missing
  or unreadable.
- HistoryStore.DeleteRecord: a dangling symbolic link named `<id>.json` is
  not modelled. `Path.exists` reports it absent, so `delete_record` returns
  `True` and leaves the link, which `glob` still lists.
- HistoryStore.FileNameInjective: file names are compared as exact
  strings, as on a case-sensitive file system that does not normalise names.
  On a case-insensitive one (the defaults on Windows and macOS), ids `Job`
  and `job` share one file, so this lemma does not describe the program there.
- StoreLaws.SaveKeepsOtherRecords: holds only under the same exact-name
  assumption; on a case-insensitive file system a save under `Job`
  overwrites the record of `job`.
- StoreLaws.SavesToDistinctIdsCommute: holds only under the same exact-name
  assumption; on a case-insensitive file system ids differing only in case
  do not commute, and `get_record` on one finds the other's record.
- JSON text is not modelled. Indentation, `ensure_ascii=False` and UTF-8 are
  left out, and a file holds a JSON value or is unreadable. JSON numbers are
  integers: floats, including `nan` and infinities, are left out, though
  they can occur inside `metadata`.
- StoreLaws.SaveThenGet: the round trip holds because `metadata` is modelled
  as a JSON object with string keys and JSON values. In the program
  `metadata` is any `dict`, and then a save need not read back equal:
  - non-string keys come back as strings (`{1: "x"}` reads as `{"1": "x"}`);
  - tuples come back as lists;
  - `nan` reads back unequal to itself;
  - a value `json.dump` cannot write, such as a `datetime`, raises after
    `open` has truncated the file.
  `HistoryRecords.AsDictRoundTrip` and `HistoryRecords.Encode` rest on the
  same restriction.
- HistoryStore.ClearAllRecords: a listing failure is not modelled. pathlib's
  `glob` swallows the error of a directory that cannot be scanned and yields
  nothing. On such a directory `clear_all_records` returns `True` and leaves
  every record file in place, and `get_all_records` returns `[]` while
  `get_record` still finds records. The model's listing always holds every
  record file.
- HistoryRecords.FromDict: a field value of the wrong JSON type is a load
  failure. Examples are a number as `id`, or a list as `metadata`.
  Python's dataclass does not check types and would accept such a value. It
  is rejected here so that every loaded record has text in its string
  fields.
- HistoryRecords.FieldNamed: `getattr` also finds dunder and method
  attributes such as `__doc__`. Those are treated as unknown attributes.
- HistoryStore.FileName: an id containing a path separator or `..` would
  write outside the history directory. This is not modelled: the file name
  is the id with `.json` appended.
- HistoryStore.SaveRecord: when `json.dump` fails after `open` has
  truncated the file, the file is modelled as unreadable. The partially
  written content is not modelled.
- The `mkdir` in the constructor, the module-level `history_manager`
  instance, the `print` diagnostics and concurrent writers are not
  modelled.
- A file that fails to load does not get skipped by `get_all_records`. The
  `try` surrounds the whole loop, so one bad file makes the whole call
  return `[]`. The model follows the code.
- Sorting on an optional field (`report_file_path`, `report_html`,
  `error_message`, `metadata`) is modelled as CPython's `list.sort` behaves:
  - a single record is returned unsorted;
  - otherwise the sort succeeds only when every record holds text in that
    field, and fails with `[]` otherwise.
- The result of `get_all_records` is independent of the `glob` order when
  sort keys are distinct (`GetAllIndependentOfListing`). With equal keys it
  can follow the `glob` order (`EqualKeysFollowListing`).
