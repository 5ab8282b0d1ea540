/**
  How the result of `get_all_records` depends on the order in which `glob`
  lists the files. Python's stable sort keeps records with equal keys in
  listing order, and that order is chosen by the file system; so the result is
  the same for every listing when the keys are pairwise distinct, and can
  differ between listings when two records share a key.
 */
module ListingLaws {
  import opened Wrappers
  import opened HistoryRecords
  import opened StableSort
  import opened HistoryStore
  import opened StoreLaws

  /** No two loadable record files hold the same value in field `f`. */
  ghost predicate DistinctKeys(dir: Directory, f: Field)
  {
    forall n, m ::
      && n != m && IsRecordFile(n) && IsRecordFile(m)
      && LoadFile(dir, n).Some? && LoadFile(dir, m).Some?
      ==> Attr(LoadFile(dir, n).value, f) != Attr(LoadFile(dir, m).value, f)
  }

  /** The position of a record file in a listing. */
  lemma PositionIn(dir: Directory, listing: seq<string>, name: string) returns (j: nat)
    requires IsListing(dir, listing)
    requires name in dir && IsRecordFile(name)
    ensures j < |listing| && listing[j] == name
  {
    assert name in listing;
    j :| 0 <= j < |listing| && listing[j] == name;
  }

  lemma FirstTwoDiffer(s: seq<string>)
    requires forall i, j :: 0 <= i < j < |s| ==> s[i] != s[j]
    ensures |s| >= 2 ==> s[0] != s[1]
  {
  }

  /** Two listings of one directory have the same length class. */
  lemma ListingsAgree(dir: Directory, l1: seq<string>, l2: seq<string>)
    requires IsListing(dir, l1) && IsListing(dir, l2)
    ensures |l1| == 0 <==> |l2| == 0
    ensures |l1| == 1 ==> l1 == l2
    ensures |l1| >= 2 ==> |l2| >= 2
  {
    if |l1| > 0 {
      var j := PositionIn(dir, l2, l1[0]);
    }
    if |l2| > 0 {
      var j := PositionIn(dir, l1, l2[0]);
    }
    if |l1| == 1 {
      forall j | 0 <= j < |l2| ensures l2[j] == l1[0] {
        var i := PositionIn(dir, l1, l2[j]);
      }
      FirstTwoDiffer(l2);
      assert l2 == [l2[0]];
    }
    if |l1| >= 2 {
      var i0 := PositionIn(dir, l2, l1[0]);
      var i1 := PositionIn(dir, l2, l1[1]);
      assert i0 != i1;
    }
  }

  /** Whether a listed file fails to load does not depend on the listing. */
  lemma LoadAllAgrees(dir: Directory, l1: seq<string>, l2: seq<string>)
    requires IsListing(dir, l1) && IsListing(dir, l2)
    ensures LoadAll(dir, l1).Some? ==> LoadAll(dir, l2).Some?
  {
    if LoadAll(dir, l1).Some? {
      forall j | 0 <= j < |l2| ensures LoadFile(dir, l2[j]).Some? {
        var i := PositionIn(dir, l1, l2[j]);
      }
    }
  }

  /** With pairwise distinct keys, each key picks out at most one element. */
  lemma {:induction false} WithKeyOfDistinct<T>(s: seq<T>, key: T -> string, k: string)
    requires forall i, j :: 0 <= i < j < |s| ==> key(s[i]) != key(s[j])
    ensures forall i :: 0 <= i < |s| && key(s[i]) == k ==> WithKey(s, key, k) == [s[i]]
    ensures (forall i :: 0 <= i < |s| ==> key(s[i]) != k) ==> WithKey(s, key, k) == []
    decreases |s|
  {
    if |s| > 0 {
      WithKeyOfDistinct(s[1..], key, k);
      if key(s[0]) == k {
        assert forall i :: 0 <= i < |s[1..]| ==> key(s[1..][i]) != k;
      }
    }
  }

  /** The records a listing loads, when every key is text and keys are distinct,
      have pairwise distinct sort keys. */
  lemma LoadedKeysDistinct(dir: Directory, listing: seq<string>, f: Field, loaded: seq<HistoryRecord>)
    requires IsListing(dir, listing)
    requires LoadAll(dir, listing) == Some(loaded)
    requires DistinctKeys(dir, f)
    requires forall i :: 0 <= i < |loaded| ==> Attr(loaded[i], f).Text?
    ensures forall i, j :: 0 <= i < j < |loaded| ==> SortKey(f)(loaded[i]) != SortKey(f)(loaded[j])
  {
    forall i, j | 0 <= i < j < |loaded| ensures SortKey(f)(loaded[i]) != SortKey(f)(loaded[j]) {
      assert listing[i] in listing && listing[j] in listing;
      assert LoadFile(dir, listing[i]) == Some(loaded[i]);
      assert LoadFile(dir, listing[j]) == Some(loaded[j]);
    }
  }

  /** Two listings of a directory with distinct keys load the same records per key. */
  lemma LoadedAgreePerKey(dir: Directory, l1: seq<string>, l2: seq<string>, f: Field,
                          loaded1: seq<HistoryRecord>, loaded2: seq<HistoryRecord>, k: string)
    requires IsListing(dir, l1) && IsListing(dir, l2)
    requires LoadAll(dir, l1) == Some(loaded1) && LoadAll(dir, l2) == Some(loaded2)
    requires DistinctKeys(dir, f)
    requires forall i :: 0 <= i < |loaded1| ==> Attr(loaded1[i], f).Text?
    requires forall i :: 0 <= i < |loaded2| ==> Attr(loaded2[i], f).Text?
    ensures WithKey(loaded1, SortKey(f), k) == WithKey(loaded2, SortKey(f), k)
  {
    var key := SortKey(f);
    LoadedKeysDistinct(dir, l1, f, loaded1);
    LoadedKeysDistinct(dir, l2, f, loaded2);
    WithKeyOfDistinct(loaded1, key, k);
    WithKeyOfDistinct(loaded2, key, k);
    if i :| 0 <= i < |loaded1| && key(loaded1[i]) == k {
      var j := PositionIn(dir, l2, l1[i]);
      assert LoadFile(dir, l1[i]) == Some(loaded1[i]);
      assert LoadFile(dir, l2[j]) == Some(loaded2[j]);
    } else {
      forall j | 0 <= j < |loaded2| ensures key(loaded2[j]) != k {
        var i := PositionIn(dir, l1, l2[j]);
        assert LoadFile(dir, l1[i]) == Some(loaded1[i]);
        assert LoadFile(dir, l2[j]) == Some(loaded2[j]);
      }
    }
  }

  /** Whether every loaded record holds text in `f` does not depend on the listing. */
  lemma TextAgrees(dir: Directory, l1: seq<string>, l2: seq<string>, f: Field,
                   loaded1: seq<HistoryRecord>, loaded2: seq<HistoryRecord>)
    requires IsListing(dir, l1) && IsListing(dir, l2)
    requires LoadAll(dir, l1) == Some(loaded1) && LoadAll(dir, l2) == Some(loaded2)
    requires forall i :: 0 <= i < |loaded1| ==> Attr(loaded1[i], f).Text?
    ensures forall j :: 0 <= j < |loaded2| ==> Attr(loaded2[j], f).Text?
  {
    forall j | 0 <= j < |loaded2| ensures Attr(loaded2[j], f).Text? {
      var i := PositionIn(dir, l1, l2[j]);
      assert LoadFile(dir, l1[i]) == Some(loaded1[i]);
      assert LoadFile(dir, l2[j]) == Some(loaded2[j]);
    }
  }

  /** When no two records share a key, `get_all_records` gives the same list
      whatever order the files are listed in. */
  lemma GetAllIndependentOfListing(dir: Directory, l1: seq<string>, l2: seq<string>, sortBy: string, reverse: bool, f: Field)
    requires IsListing(dir, l1) && IsListing(dir, l2)
    requires FieldNamed(sortBy) == Some(f)
    requires DistinctKeys(dir, f)
    ensures GetAllRecords(dir, l1, sortBy, reverse) == GetAllRecords(dir, l2, sortBy, reverse)
  {
    LoadAllAgrees(dir, l1, l2);
    LoadAllAgrees(dir, l2, l1);
    ListingsAgree(dir, l1, l2);
    ListingsAgree(dir, l2, l1);
    GetAllEmptyExactly(dir, l1, sortBy, reverse);
    GetAllEmptyExactly(dir, l2, sortBy, reverse);
    if LoadAll(dir, l1).Some? && |l1| >= 2 {
      var loaded1, loaded2 := LoadAll(dir, l1).value, LoadAll(dir, l2).value;
      if forall i :: 0 <= i < |loaded1| ==> Attr(loaded1[i], f).Text? {
        TextAgrees(dir, l1, l2, f, loaded1, loaded2);
        var out1 := GetAllRecords(dir, l1, sortBy, reverse);
        var out2 := GetAllRecords(dir, l2, sortBy, reverse);
        GetAllSortsLoadedRecords(dir, l1, sortBy, reverse, f);
        GetAllSortsLoadedRecords(dir, l2, sortBy, reverse, f);
        forall k ensures WithKey(out2, SortKey(f), k) == WithKey(out1, SortKey(f), k) {
          LoadedAgreePerKey(dir, l1, l2, f, loaded1, loaded2, k);
        }
        SortedStableUnique(out1, out2, SortKey(f), reverse);
      } else if forall j :: 0 <= j < |loaded2| ==> Attr(loaded2[j], f).Text? {
        TextAgrees(dir, l2, l1, f, loaded2, loaded1);
        assert false;
      }
    }
  }

  lemma NamesListed(dir: Directory, names: seq<string>)
    requires forall i, j :: 0 <= i < j < |names| ==> names[i] != names[j]
    requires forall i :: 0 <= i < |names| ==> IsRecordFile(names[i])
    requires forall n :: n in dir <==> n in names
    ensures IsListing(dir, names)
  {
  }

  lemma LoadAllOf(dir: Directory, names: seq<string>, records: seq<HistoryRecord>)
    requires |names| == |records|
    requires forall i :: 0 <= i < |names| ==> LoadFile(dir, names[i]) == Some(records[i])
    ensures LoadAll(dir, names) == Some(records)
  {
    var r := LoadAll(dir, names);
    assert r.Some?;
    assert r.value == records;
  }

  /** A completed job created and last updated at `createdAt`. */
  function Job(id: string, createdAt: string): HistoryRecord
  {
    HistoryRecord(id, "query", "completed", createdAt, createdAt, None, None, None, None)
  }

  /** The three creation dates of the example below, in Python's string order. */
  lemma DatesOrdered()
    ensures LexOrder.LexLe("2024-02-01", "2024-03-01")
    ensures LexOrder.LexLe("2024-01-01", "2024-03-01")
    ensures LexOrder.LexLe("2024-01-01", "2024-02-01")
  {
    LexOrder.LexLeAtFirstDifference("2024-02-01", "2024-03-01", 6);
    LexOrder.LexLeAtFirstDifference("2024-01-01", "2024-03-01", 6);
    LexOrder.LexLeAtFirstDifference("2024-01-01", "2024-02-01", 6);
  }

  /** Three elements whose keys strictly decrease are sorted descending, and
      with pairwise distinct keys any order keeps equal keys in input order. */
  lemma DescendingThree<T>(key: T -> string, a: T, b: T, c: T)
    requires LexOrder.LexLe(key(a), key(c)) && LexOrder.LexLe(key(c), key(b)) && LexOrder.LexLe(key(a), key(b))
    requires key(a) != key(b) && key(b) != key(c) && key(a) != key(c)
    ensures Sorted([b, c, a], key, true)
    ensures Stable([a, b, c], [b, c, a], key)
  {
    forall k ensures WithKey([b, c, a], key, k) == WithKey([a, b, c], key, k) {
      WithKeyOfDistinct([b, c, a], key, k);
      WithKeyOfDistinct([a, b, c], key, k);
    }
  }

  /** Keys 2024-01-01, 2024-03-01, 2024-02-01 in that order sort newest first. */
  lemma NewestFirstSorted<T>(key: T -> string, a: T, b: T, c: T)
    requires key(a) == "2024-01-01" && key(b) == "2024-03-01" && key(c) == "2024-02-01"
    ensures Sorted([b, c, a], key, true)
    ensures Stable([a, b, c], [b, c, a], key)
  {
    DatesOrdered();
    assert "2024-01-01"[6] != "2024-03-01"[6] && "2024-02-01"[6] != "2024-03-01"[6] && "2024-01-01"[6] != "2024-02-01"[6];
    DescendingThree(key, a, b, c);
  }

  lemma ExampleLoads(dir: Directory)
    requires dir.Keys == {"a.json", "b.json", "c.json"}
    requires LoadFile(dir, "a.json") == Some(Job("a", "2024-01-01"))
    requires LoadFile(dir, "b.json") == Some(Job("b", "2024-03-01"))
    requires LoadFile(dir, "c.json") == Some(Job("c", "2024-02-01"))
    ensures IsListing(dir, ["a.json", "b.json", "c.json"])
    ensures LoadAll(dir, ["a.json", "b.json", "c.json"])
      == Some([Job("a", "2024-01-01"), Job("b", "2024-03-01"), Job("c", "2024-02-01")])
  {
    NamesListed(dir, ["a.json", "b.json", "c.json"]);
    LoadAllOf(dir, ["a.json", "b.json", "c.json"], [Job("a", "2024-01-01"), Job("b", "2024-03-01"), Job("c", "2024-02-01")]);
  }

  /** Three jobs created on 2024-01-01, 2024-03-01 and 2024-02-01, listed by
      `created_at` with the default `reverse=True`, come newest first. */
  lemma NewestFirstExample(dir: Directory)
    requires dir.Keys == {"a.json", "b.json", "c.json"}
    requires LoadFile(dir, "a.json") == Some(Job("a", "2024-01-01"))
    requires LoadFile(dir, "b.json") == Some(Job("b", "2024-03-01"))
    requires LoadFile(dir, "c.json") == Some(Job("c", "2024-02-01"))
    ensures IsListing(dir, ["a.json", "b.json", "c.json"])
    ensures GetAllRecords(dir, ["a.json", "b.json", "c.json"], "created_at", true)
      == [Job("b", "2024-03-01"), Job("c", "2024-02-01"), Job("a", "2024-01-01")]
  {
    ExampleLoads(dir);
    ListsNewestFirst(dir, ["a.json", "b.json", "c.json"], Job("a", "2024-01-01"), Job("b", "2024-03-01"), Job("c", "2024-02-01"));
  }

  lemma ListsNewestFirst(dir: Directory, listing: seq<string>, a: HistoryRecord, b: HistoryRecord, c: HistoryRecord)
    requires IsListing(dir, listing) && LoadAll(dir, listing) == Some([a, b, c])
    requires a.createdAt == "2024-01-01" && b.createdAt == "2024-03-01" && c.createdAt == "2024-02-01"
    ensures GetAllRecords(dir, listing, "created_at", true) == [b, c, a]
  {
    NewestFirstSorted(SortKey(CreatedAt), a, b, c);
    GetAllIsTheStableSort(dir, listing, "created_at", true, CreatedAt, [b, c, a]);
  }

  /** Two records with equal creation times keep the listing order. */
  lemma TiesKeepListingOrder(dir: Directory, nx: string, ny: string, x: HistoryRecord, y: HistoryRecord)
    requires dir.Keys == {nx, ny} && nx != ny && IsRecordFile(nx) && IsRecordFile(ny)
    requires LoadFile(dir, nx) == Some(x) && LoadFile(dir, ny) == Some(y)
    requires x.createdAt == y.createdAt
    ensures IsListing(dir, [nx, ny])
    ensures GetAllRecords(dir, [nx, ny], "created_at", true) == [x, y]
  {
    NamesListed(dir, [nx, ny]);
    LoadAllOf(dir, [nx, ny], [x, y]);
    LexOrder.LexLeReflexive(x.createdAt);
    GetAllIsTheStableSort(dir, [nx, ny], "created_at", true, CreatedAt, [x, y]);
  }

  /** Two jobs sharing a creation time come back in whatever order the file
      system lists them: the result differs between listings. */
  lemma EqualKeysFollowListing(dir: Directory)
    requires dir.Keys == {"x.json", "y.json"}
    requires LoadFile(dir, "x.json") == Some(Job("x", "2024-01-01"))
    requires LoadFile(dir, "y.json") == Some(Job("y", "2024-01-01"))
    ensures IsListing(dir, ["x.json", "y.json"]) && IsListing(dir, ["y.json", "x.json"])
    ensures GetAllRecords(dir, ["x.json", "y.json"], "created_at", true) == [Job("x", "2024-01-01"), Job("y", "2024-01-01")]
    ensures GetAllRecords(dir, ["y.json", "x.json"], "created_at", true) == [Job("y", "2024-01-01"), Job("x", "2024-01-01")]
  {
    TiesKeepListingOrder(dir, "x.json", "y.json", Job("x", "2024-01-01"), Job("y", "2024-01-01"));
    TiesKeepListingOrder(dir, "y.json", "x.json", Job("y", "2024-01-01"), Job("x", "2024-01-01"));
  }
}
