/**
  Laws relating the store's operations to one another: a saved record reads
  back, the last save wins, saves to different ids do not interfere, deletion
  is idempotent, a cleared store lists nothing, and the listing is the stable
  sort of the stored records.
 */
module StoreLaws {
  import opened Wrappers
  import opened HistoryRecords
  import opened StableSort
  import opened HistoryStore

  // ----- save and get -----

  /** A saved record reads back equal to what was saved; a save whose write
      failed after truncating the file leaves the record unreadable. */
  lemma SaveThenGet(dir: Directory, record: HistoryRecord, fault: WriteFault)
    requires fault != OpenFails
    ensures GetRecord(SaveRecord(dir, record, fault).dir, record.id) ==
      (if fault == NoFault then Some(record) else None)
  {
  }

  /** Saving twice under one id leaves exactly the directory a single save of
      the second record leaves: one file, holding only the latest record. */
  lemma SaveOverwrites(dir: Directory, first: HistoryRecord, second: HistoryRecord)
    requires first.id == second.id
    ensures var twice := SaveRecord(SaveRecord(dir, first, NoFault).dir, second, NoFault).dir;
      && twice == SaveRecord(dir, second, NoFault).dir
      && twice.Keys == dir.Keys + {FileName(second.id)}
      && GetRecord(twice, first.id) == Some(second)
  {
    SaveIsUpdate(dir, first);
    SaveIsUpdate(SaveRecord(dir, first, NoFault).dir, second);
    SaveIsUpdate(dir, second);
    UpdateTwice(dir, FileName(second.id), Document(Encode(first)), Document(Encode(second)));
    SaveThenGet(dir, second, NoFault);
  }

  /** A successful save writes one entry of the directory. */
  lemma SaveIsUpdate(dir: Directory, record: HistoryRecord)
    ensures SaveRecord(dir, record, NoFault).dir == dir[FileName(record.id) := Document(Encode(record))]
  {
  }

  lemma UpdateTwice(dir: Directory, name: string, first: FileContent, second: FileContent)
    ensures dir[name := first][name := second] == dir[name := second]
    ensures dir[name := second].Keys == dir.Keys + {name}
  {
  }

  lemma UpdatesCommute(dir: Directory, m: string, n: string, x: FileContent, y: FileContent)
    requires m != n
    ensures dir[m := x][n := y] == dir[n := y][m := x]
  {
  }

  /** A save, successful or not, leaves every other record as it was. */
  lemma SaveKeepsOtherRecords(dir: Directory, record: HistoryRecord, fault: WriteFault, id: string)
    requires id != record.id
    ensures GetRecord(SaveRecord(dir, record, fault).dir, id) == GetRecord(dir, id)
  {
    if FileName(id) == FileName(record.id) {
      FileNameInjective(id, record.id);
    }
  }

  /** Saves to different ids commute, and both records read back. */
  lemma SavesToDistinctIdsCommute(dir: Directory, a: HistoryRecord, b: HistoryRecord)
    requires a.id != b.id
    ensures var ab := SaveRecord(SaveRecord(dir, a, NoFault).dir, b, NoFault).dir;
      var ba := SaveRecord(SaveRecord(dir, b, NoFault).dir, a, NoFault).dir;
      && ab == ba
      && GetRecord(ab, a.id) == Some(a)
      && GetRecord(ab, b.id) == Some(b)
  {
    var na, nb := FileName(a.id), FileName(b.id);
    if na == nb {
      FileNameInjective(a.id, b.id);
    }
    var withA, withB := SaveRecord(dir, a, NoFault).dir, SaveRecord(dir, b, NoFault).dir;
    SaveIsUpdate(dir, a);
    SaveIsUpdate(dir, b);
    SaveIsUpdate(withA, b);
    SaveIsUpdate(withB, a);
    UpdatesCommute(dir, na, nb, Document(Encode(a)), Document(Encode(b)));
    SaveThenGet(dir, a, NoFault);
    SaveKeepsOtherRecords(withA, b, NoFault, a.id);
    SaveThenGet(withA, b, NoFault);
  }

  /** A file that exists but cannot be read, or does not hold a record, reads
      as absent. */
  lemma GetCorruptIsNone(dir: Directory, id: string)
    requires FileName(id) in dir
    requires dir[FileName(id)].Unreadable? || Decode(dir[FileName(id)].doc).None?
    ensures GetRecord(dir, id) == None
  {
  }

  // ----- delete -----

  /** After a successful delete the record reads as absent. */
  lemma DeleteThenGet(dir: Directory, id: string, failing: set<string>)
    requires DeleteRecord(dir, id, failing).result
    ensures GetRecord(DeleteRecord(dir, id, failing).dir, id) == None
  {
  }

  /** Deleting a record that does not exist, under a name the file system
      does not fail on, succeeds and changes nothing. */
  lemma DeleteAbsentIsNoOp(dir: Directory, id: string, failing: set<string>)
    requires FileName(id) !in dir && FileName(id) !in failing
    ensures DeleteRecord(dir, id, failing) == Step(dir, true)
  {
  }

  /** Deleting twice is deleting once. */
  lemma DeleteIdempotent(dir: Directory, id: string, failing: set<string>)
    requires DeleteRecord(dir, id, failing).result
    ensures var once := DeleteRecord(dir, id, failing).dir;
      DeleteRecord(once, id, failing) == Step(once, true)
  {
  }

  // ----- clear and list -----

  /** A store without record files lists nothing and finds nothing. */
  lemma ClearedStoreIsEmpty(dir: Directory, listing: seq<string>, sortBy: string, reverse: bool, id: string)
    requires NoRecordFiles(dir)
    requires IsListing(dir, listing)
    ensures listing == []
    ensures GetAllRecords(dir, listing, sortBy, reverse) == []
    ensures GetRecord(dir, id) == None
  {
    ListingHead(dir, listing);
  }

  /** Whether every listed file loads and the sort can run on its records. */
  predicate SortCanRun(records: seq<HistoryRecord>, sortBy: string)
  {
    || |records| == 0
    || (FieldNamed(sortBy).Some? &&
        (|records| == 1 || forall i :: 0 <= i < |records| ==> Attr(records[i], FieldNamed(sortBy).value).Text?))
  }

  /** `get_all_records` gives a non-empty list exactly when there are record
      files, all of them load, and the sort key is a field holding text in
      every record (or there is a single record); otherwise `[]`. */
  lemma GetAllEmptyExactly(dir: Directory, listing: seq<string>, sortBy: string, reverse: bool)
    requires IsListing(dir, listing)
    ensures GetAllRecords(dir, listing, sortBy, reverse) != [] <==>
      && |listing| > 0
      && LoadAll(dir, listing).Some?
      && SortCanRun(LoadAll(dir, listing).value, sortBy)
  {
    ListingHead(dir, listing);
  }

  /** When every record file loads and the key is usable, the listing is the
      loaded records, sorted by the key in the requested direction, with equal
      keys in listing order. */
  lemma GetAllSortsLoadedRecords(dir: Directory, listing: seq<string>, sortBy: string, reverse: bool, f: Field)
    requires IsListing(dir, listing)
    requires FieldNamed(sortBy) == Some(f)
    requires forall i :: 0 <= i < |listing| ==> LoadFile(dir, listing[i]).Some?
    requires |listing| >= 2 ==> forall i :: 0 <= i < |listing| ==> Attr(LoadFile(dir, listing[i]).value, f).Text?
    ensures LoadAll(dir, listing).Some?
    ensures var out := GetAllRecords(dir, listing, sortBy, reverse);
      var loaded := LoadAll(dir, listing).value;
      && multiset(out) == multiset(loaded)
      && Sorted(out, SortKey(f), reverse)
      && Stable(loaded, out, SortKey(f))
  {
    var loaded := LoadAll(dir, listing).value;
    if |listing| >= 2 {
      forall i | 0 <= i < |loaded| ensures Attr(loaded[i], f).Text? {
        assert LoadFile(dir, listing[i]) == Some(loaded[i]);
      }
    }
  }

  /** The listing is the only sorted, stable arrangement of the loaded records:
      any sequence ordered by the key that keeps equal keys in listing order is it. */
  lemma GetAllIsTheStableSort(dir: Directory, listing: seq<string>, sortBy: string, reverse: bool, f: Field, candidate: seq<HistoryRecord>)
    requires IsListing(dir, listing)
    requires FieldNamed(sortBy) == Some(f)
    requires LoadAll(dir, listing).Some?
    requires |listing| >= 2 ==> forall i :: 0 <= i < |listing| ==> Attr(LoadAll(dir, listing).value[i], f).Text?
    requires Sorted(candidate, SortKey(f), reverse)
    requires Stable(LoadAll(dir, listing).value, candidate, SortKey(f))
    ensures GetAllRecords(dir, listing, sortBy, reverse) == candidate
  {
    var loaded := LoadAll(dir, listing).value;
    var out := GetAllRecords(dir, listing, sortBy, reverse);
    assert Sorted(out, SortKey(f), reverse) && Stable(loaded, out, SortKey(f));
    forall k ensures WithKey(candidate, SortKey(f), k) == WithKey(out, SortKey(f), k) {
      assert WithKey(candidate, SortKey(f), k) == WithKey(loaded, SortKey(f), k);
      assert WithKey(out, SortKey(f), k) == WithKey(loaded, SortKey(f), k);
    }
    SortedStableUnique(out, candidate, SortKey(f), reverse);
  }
}
