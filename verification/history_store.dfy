/**
  The history store: a directory holding one `<id>.json` file per record, and
  the five operations `save_record`, `get_record`, `get_all_records`,
  `delete_record` and `clear_all_records`. The directory is a map from file
  name to file content; every operation is a pure function of the directory
  and its inputs. Failures never escape: they become `false`, `None` or `[]`.
  Faults of the file system (a file that cannot be written or removed) and the
  order in which `glob` lists files are inputs.
 */
module HistoryStore {
  import opened Wrappers
  import opened JsonValues
  import opened HistoryRecords
  import opened StableSort

  /** What a file holds: a JSON document, or bytes `json.load` rejects
      (empty, truncated, not JSON) or that cannot be read at all. */
  datatype FileContent = Document(doc: Json) | Unreadable

  type Directory = map<string, FileContent>

  /** The directory after an operation, with the operation's result. */
  datatype Step<R> = Step(dir: Directory, result: R)

  const Suffix: string := ".json"

  /** The file that holds the record with this id. */
  function FileName(id: string): (name: string)
    ensures IsRecordFile(name)
    ensures |name| == |id| + |Suffix| && name[..|id|] == id
  {
    id + Suffix
  }

  /** The names `glob("*.json")` matches. */
  predicate IsRecordFile(name: string)
  {
    |name| >= |Suffix| && name[|name| - |Suffix|..] == Suffix
  }

  lemma FileNameInjective(a: string, b: string)
    requires FileName(a) == FileName(b)
    ensures a == b
  {
    assert a == FileName(a)[..|a|];
    assert b == FileName(b)[..|b|];
  }

  /** Entries other than `name` are the same in both directories. */
  ghost predicate SameOutside(before: Directory, after: Directory, name: string)
  {
    forall n :: n != name ==>
      && (n in before <==> n in after)
      && (n in before && n in after ==> before[n] == after[n])
  }

  /** `glob("*.json")`: every record file exactly once, in an order the file
      system chooses. */
  ghost predicate IsListing(dir: Directory, listing: seq<string>)
  {
    && (forall i, j :: 0 <= i < j < |listing| ==> listing[i] != listing[j])
    && (forall n :: n in listing <==> n in dir && IsRecordFile(n))
  }

  lemma ListingHead(dir: Directory, listing: seq<string>)
    requires IsListing(dir, listing)
    ensures |listing| > 0 ==> listing[0] in dir && IsRecordFile(listing[0])
  {
    if |listing| > 0 {
      assert listing[0] in listing;
    }
  }

  /** Opening, `json.load` and `HistoryRecord(**data)` on one file. */
  function LoadFile(dir: Directory, name: string): (r: Option<HistoryRecord>)
    ensures r.Some? ==> name in dir && dir[name].Document? && Decode(dir[name].doc) == r
    ensures r.Some? <==> name in dir && dir[name].Document? && Decode(dir[name].doc).Some?
  {
    if name !in dir then None
    else match dir[name]
      case Unreadable => None
      case Document(doc) => Decode(doc)
  }

  // ----- save_record -----

  /** How writing a file can go: `open(..., 'w')` can fail before touching
      the file, or `json.dump` can fail after `open` has truncated it. */
  datatype WriteFault = NoFault | OpenFails | DumpFails

  function SaveRecord(dir: Directory, record: HistoryRecord, fault: WriteFault): (s: Step<bool>)
    ensures s.result <==> fault == NoFault
    ensures s.result ==> FileName(record.id) in s.dir && s.dir[FileName(record.id)] == Document(Encode(record))
    ensures fault == OpenFails ==> s.dir == dir
    ensures fault == DumpFails ==> FileName(record.id) in s.dir && s.dir[FileName(record.id)] == Unreadable
    ensures SameOutside(dir, s.dir, FileName(record.id))
  {
    var name := FileName(record.id);
    match fault
    case OpenFails => Step(dir, false)
    case DumpFails => Step(dir[name := Unreadable], false)
    case NoFault => Step(dir[name := Document(Encode(record))], true)
  }

  // ----- get_record -----

  /** The record stored under `id`; `None` when its file is missing, unreadable
      or does not hold a record. The directory is not changed. */
  function GetRecord(dir: Directory, id: string): (r: Option<HistoryRecord>)
    ensures FileName(id) !in dir ==> r == None
    ensures r.Some? ==> FileName(id) in dir && dir[FileName(id)].Document?
    ensures r.Some? ==> Decode(dir[FileName(id)].doc) == r
    ensures r.Some? <==>
      && FileName(id) in dir && dir[FileName(id)].Document?
      && dir[FileName(id)].doc.Object? && IsRecordDict(dir[FileName(id)].doc.members)
  {
    var name := FileName(id);
    if name !in dir then None
    else LoadFile(dir, name)
  }

  // ----- get_all_records -----

  /** Loads every listed file in listing order; one failure fails the lot. */
  function LoadAll(dir: Directory, listing: seq<string>): (r: Option<seq<HistoryRecord>>)
    ensures r.Some? <==> forall i :: 0 <= i < |listing| ==> LoadFile(dir, listing[i]).Some?
    ensures r.Some? ==> |r.value| == |listing|
    ensures r.Some? ==> forall i :: 0 <= i < |listing| ==> LoadFile(dir, listing[i]) == Some(r.value[i])
    decreases |listing|
  {
    if |listing| == 0 then Some([])
    else
      var first :- LoadFile(dir, listing[0]);
      var rest :- LoadAll(dir, listing[1..]);
      Some([first] + rest)
  }

  /** The sort key of a field: its text. Only used when every compared
      record holds text in that field. */
  function SortKey(f: Field): HistoryRecord -> string
  {
    r => if Attr(r, f).Text? then Attr(r, f).s else ""
  }

  /** `records.sort(key=lambda x: getattr(x, sort_by), reverse=reverse)`.
      No key is computed for an empty list. Otherwise every key is computed,
      so an unknown attribute fails; a single record is never compared; two or
      more records are compared with `<`, which fails unless every key is text. */
  function SortRecords(records: seq<HistoryRecord>, sortBy: string, reverse: bool): (r: Option<seq<HistoryRecord>>)
    ensures r.Some? ==> multiset(r.value) == multiset(records)
    ensures r.Some? && FieldNamed(sortBy).Some? ==>
      && Sorted(r.value, SortKey(FieldNamed(sortBy).value), reverse)
      && Stable(records, r.value, SortKey(FieldNamed(sortBy).value))
    ensures |records| > 0 && FieldNamed(sortBy).None? ==> r.None?
    ensures |records| == 0 || (|records| == 1 && FieldNamed(sortBy).Some?) ==> r == Some(records)
    ensures |records| >= 2 && FieldNamed(sortBy).Some? ==>
      (r.Some? <==> forall i :: 0 <= i < |records| ==> Attr(records[i], FieldNamed(sortBy).value).Text?)
  {
    if |records| == 0 then Some([])
    else match FieldNamed(sortBy)
      case None => None
      case Some(f) =>
        if |records| == 1 then Some(records)
        else if exists i :: 0 <= i < |records| && !Attr(records[i], f).Text? then None
        else Some(InsertionSort(records, SortKey(f), reverse))
  }

  /** `get_all_records(sort_by, reverse)`: every record file loaded in listing
      order, then sorted; any failure on the way gives `[]`, never a partial list. */
  function GetAllRecords(dir: Directory, listing: seq<string>, sortBy: string := "created_at", reverse: bool := true): (r: seq<HistoryRecord>)
    requires IsListing(dir, listing)
    ensures r == [] || |r| == |listing|
    ensures (exists i :: 0 <= i < |listing| && LoadFile(dir, listing[i]).None?) ==> r == []
    ensures |listing| > 0 && FieldNamed(sortBy).None? ==> r == []
  {
    match LoadAll(dir, listing)
    case None => []
    case Some(records) =>
      match SortRecords(records, sortBy, reverse)
      case None => []
      case Some(sorted) => sorted
  }

  // ----- delete_record -----

  /** Removes `<id>.json` if present. `failing` holds the names on which the
      file system raises: `Path.exists` itself (a name too long, a directory
      that cannot be searched) or, for an existing file, `unlink`. */
  function DeleteRecord(dir: Directory, id: string, failing: set<string>): (s: Step<bool>)
    ensures s.result <==> FileName(id) !in failing
    ensures s.result ==> FileName(id) !in s.dir
    ensures !s.result ==> s.dir == dir
    ensures SameOutside(dir, s.dir, FileName(id))
  {
    var name := FileName(id);
    if name in failing then Step(dir, false)
    else if name !in dir then Step(dir, true)
    else Step(dir - {name}, true)
  }

  // ----- clear_all_records -----

  /** The first `n` names of a listing. */
  ghost function Removed(listing: seq<string>, n: nat): set<string>
    requires n <= |listing|
  {
    set i | 0 <= i < n :: listing[i]
  }

  /** No record file is left. */
  ghost predicate NoRecordFiles(dir: Directory)
  {
    forall n :: n in dir ==> !IsRecordFile(n)
  }

  /** Removes the record files one by one in listing order and stops at the
      first one that cannot be removed; files removed before it stay removed. */
  method ClearAllRecords(dir: Directory, listing: seq<string>, undeletable: set<string>)
    returns (after: Directory, ok: bool)
    requires IsListing(dir, listing)
    ensures ok <==> forall i :: 0 <= i < |listing| ==> listing[i] !in undeletable
    ensures ok ==> NoRecordFiles(after)
    ensures ok ==> after == dir - Removed(listing, |listing|)
    ensures ok ==> forall n :: n in dir && !IsRecordFile(n) ==> n in after && after[n] == dir[n]
    ensures !ok ==> exists i ::
      && 0 <= i < |listing| && listing[i] in undeletable
      && (forall j :: 0 <= j < i ==> listing[j] !in undeletable)
      && after == dir - Removed(listing, i)
  {
    after := dir;
    var i := 0;
    while i < |listing|
      invariant 0 <= i <= |listing|
      invariant forall j :: 0 <= j < i ==> listing[j] !in undeletable
      invariant after == dir - Removed(listing, i)
    {
      if listing[i] in undeletable {
        return after, false;
      }
      assert Removed(listing, i + 1) == Removed(listing, i) + {listing[i]};
      after := after - {listing[i]};
      i := i + 1;
    }
    assert forall n :: n in listing ==> n in Removed(listing, |listing|);
    ok := true;
  }
}
