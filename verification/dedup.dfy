/**
 * `remove_duplicate_files`: list the whole catalog, scan it once keeping
 * the first record seen for each name, then ask the store to delete every
 * later record with an already-seen name, one request per id, in the order
 * the scan found them.
 */
module Dedup {
  import opened DriveStore
  import Catalog

  /** The two variables the scan fills: `file_names` and `duplicate_files_ids` */
  datatype ScanState = ScanState(fileNames: map<string, string>, duplicateIds: seq<string>)

  /** One iteration of the scan over record f */
  function ScanStep(s: ScanState, f: Record): ScanState {
    if f.name in s.fileNames then s.(duplicateIds := s.duplicateIds + [f.id])
    else s.(fileNames := s.fileNames[f.name := f.id])
  }

  /** The state after scanning `files` in catalog order */
  function Scan(files: seq<Record>): ScanState {
    if files == [] then ScanState(map[], [])
    else ScanStep(Scan(files[..|files| - 1]), files[|files| - 1])
  }

  // Reference definitions, stated over positions in the catalog rather than over the map.

  /** Some earlier record of the catalog has the same name as record i */
  predicate SeenBefore(files: seq<Record>, i: nat)
    requires i < |files|
  {
    exists j :: 0 <= j < i && files[j].name == files[i].name
  }

  /** The distinct names of the catalog */
  function Names(files: seq<Record>): set<string> {
    set i | 0 <= i < |files| :: files[i].name
  }

  /** The ids of the records whose name was seen earlier, in catalog order */
  function Repeats(files: seq<Record>): seq<string> {
    if files == [] then []
    else Repeats(files[..|files| - 1]) + (if SeenBefore(files, |files| - 1) then [files[|files| - 1].id] else [])
  }

  /** The first record of each name, in catalog order: what is left once every repeat is gone */
  function Survivors(files: seq<Record>): seq<Record> {
    if files == [] then []
    else Survivors(files[..|files| - 1]) + (if SeenBefore(files, |files| - 1) then [] else [files[|files| - 1]])
  }

  /** No two records of the catalog share a name */
  predicate DistinctNames(files: seq<Record>) {
    forall i, j :: 0 <= i < j < |files| ==> files[i].name != files[j].name
  }

  /** No two records of the catalog share an id, as the store guarantees */
  predicate DistinctIds(files: seq<Record>) {
    forall i, j :: 0 <= i < j < |files| ==> files[i].id != files[j].id
  }

  lemma SeenBeforeInPrefix(files: seq<Record>, i: nat, m: nat)
    requires i < m <= |files|
    ensures SeenBefore(files[..m], i) == SeenBefore(files, i)
  {
    if SeenBefore(files, i) {
      var j :| 0 <= j < i && files[j].name == files[i].name;
      assert files[..m][j].name == files[..m][i].name;
    }
  }

  lemma NamesSnoc(files: seq<Record>)
    requires files != []
    ensures Names(files) == Names(files[..|files| - 1]) + {files[|files| - 1].name}
    ensures files[|files| - 1].name in Names(files[..|files| - 1]) <==> SeenBefore(files, |files| - 1)
  {
    var init := files[..|files| - 1];
    forall x | x in Names(files) ensures x in Names(init) + {files[|files| - 1].name} {
      var i :| 0 <= i < |files| && files[i].name == x;
      if i < |init| { assert init[i].name == x; }
    }
    forall x | x in Names(init) ensures x in Names(files) {
      var i :| 0 <= i < |init| && init[i].name == x;
      assert files[i].name == x;
    }
    if files[|files| - 1].name in Names(init) {
      var i :| 0 <= i < |init| && init[i].name == files[|files| - 1].name;
      assert files[i].name == files[|files| - 1].name;
    }
  }

  /**
   * Scan ownership: every name of the catalog is a key of `file_names`, and
   * each key maps to the id of the first record with that name; the
   * duplicate list is exactly the ids of the later records, in catalog order.
   */
  lemma {:induction false} ScanMatchesReference(files: seq<Record>)
    ensures forall i :: 0 <= i < |files| ==> files[i].name in Scan(files).fileNames
    ensures forall n :: n in Scan(files).fileNames ==>
              exists i :: 0 <= i < |files| && files[i].name == n && !SeenBefore(files, i)
                          && Scan(files).fileNames[n] == files[i].id
    ensures Scan(files).duplicateIds == Repeats(files)
  {
    if files != [] {
      var init := files[..|files| - 1];
      var last := files[|files| - 1];
      ScanMatchesReference(init);
      var s := Scan(init);
      NamesSnoc(files);
      assert last.name in s.fileNames <==> last.name in Names(init) by {
        if last.name in Names(init) {
          var i :| 0 <= i < |init| && init[i].name == last.name;
        }
      }
      forall i | 0 <= i < |files| - 1 ensures SeenBefore(init, i) == SeenBefore(files, i) {
        SeenBeforeInPrefix(files, i, |files| - 1);
      }
      forall i | 0 <= i < |files| ensures files[i].name in Scan(files).fileNames {
        if i < |init| { assert init[i] == files[i]; }
      }
      forall n | n in Scan(files).fileNames
        ensures exists i :: 0 <= i < |files| && files[i].name == n && !SeenBefore(files, i)
                            && Scan(files).fileNames[n] == files[i].id
      {
        if n in s.fileNames {
          var i :| 0 <= i < |init| && init[i].name == n && !SeenBefore(init, i) && s.fileNames[n] == init[i].id;
          assert files[i] == init[i];
          if n == last.name {
            assert SeenBefore(files, |files| - 1);
          }
        } else {
          assert n == last.name && !SeenBefore(files, |files| - 1);
        }
      }
    }
  }

  lemma {:induction false} RepeatsAreLater(files: seq<Record>)
    ensures forall id :: id in Repeats(files) ==>
              exists j :: 0 <= j < |files| && SeenBefore(files, j) && files[j].id == id
  {
    if files != [] {
      var init := files[..|files| - 1];
      RepeatsAreLater(init);
      forall id | id in Repeats(files)
        ensures exists j :: 0 <= j < |files| && SeenBefore(files, j) && files[j].id == id
      {
        if id in Repeats(init) {
          var j :| 0 <= j < |init| && SeenBefore(init, j) && init[j].id == id;
          SeenBeforeInPrefix(files, j, |files| - 1);
          assert files[j] == init[j];
        }
      }
    }
  }

  /** The first-seen id of a name is never among the ids handed to delete */
  lemma FirstSeenNeverDeleted(files: seq<Record>)
    requires DistinctIds(files)
    ensures forall n :: n in Scan(files).fileNames ==> Scan(files).fileNames[n] !in Scan(files).duplicateIds
  {
    ScanMatchesReference(files);
    RepeatsAreLater(files);
    forall n | n in Scan(files).fileNames ensures Scan(files).fileNames[n] !in Scan(files).duplicateIds {
      var i :| 0 <= i < |files| && files[i].name == n && !SeenBefore(files, i)
               && Scan(files).fileNames[n] == files[i].id;
      forall j | 0 <= j < |files| && SeenBefore(files, j) ensures files[j].id != files[i].id {
        assert j != i;
      }
    }
  }

  /** Every record is either a survivor or a repeat */
  lemma {:induction false} SurvivorsAndRepeats(files: seq<Record>)
    ensures |Survivors(files)| + |Repeats(files)| == |files|
    ensures |Repeats(files)| + |Names(files)| == |files|
    ensures Names(Survivors(files)) == Names(files)
  {
    if files != [] {
      var init := files[..|files| - 1];
      var last := files[|files| - 1];
      SurvivorsAndRepeats(init);
      NamesSnoc(files);
      var sv := Survivors(files);
      if !SeenBefore(files, |files| - 1) {
        assert |Names(files)| == |Names(init)| + 1;
        assert sv == Survivors(init) + [last];
        NamesSnoc(sv);
        assert sv[..|sv| - 1] == Survivors(init);
      } else {
        assert Names(files) == Names(init);
        assert sv == Survivors(init);
      }
    }
  }

  /** The count reported as "{n} duplicate files found": records minus distinct names */
  lemma DuplicateCount(files: seq<Record>)
    ensures |Scan(files).duplicateIds| == |files| - |Names(files)|
    ensures |Scan(files).fileNames| == |Names(files)|
  {
    ScanMatchesReference(files);
    SurvivorsAndRepeats(files);
    var m := Scan(files).fileNames;
    forall n | n in m.Keys ensures n in Names(files) {
      var i :| 0 <= i < |files| && files[i].name == n && !SeenBefore(files, i) && m[n] == files[i].id;
    }
    forall n | n in Names(files) ensures n in m.Keys {
      var i :| 0 <= i < |files| && files[i].name == n;
    }
    assert m.Keys == Names(files);
  }

  /** The survivors of a catalog have pairwise distinct names */
  lemma {:induction false} SurvivorsDistinct(files: seq<Record>)
    ensures DistinctNames(Survivors(files))
  {
    if files != [] {
      var init := files[..|files| - 1];
      var last := files[|files| - 1];
      SurvivorsDistinct(init);
      SurvivorsAndRepeats(init);
      NamesSnoc(files);
      if !SeenBefore(files, |files| - 1) {
        var sv := Survivors(files);
        assert sv == Survivors(init) + [last];
        forall i | 0 <= i < |sv| - 1 ensures sv[i].name != last.name {
          assert sv[i] == Survivors(init)[i];
          assert sv[i].name in Names(Survivors(init));
        }
      }
    }
  }

  /** A catalog with no repeated name has no repeats, and conversely */
  lemma {:induction false} NoRepeatsIffDistinct(files: seq<Record>)
    ensures Repeats(files) == [] <==> DistinctNames(files)
  {
    if files != [] {
      var init := files[..|files| - 1];
      var last := files[|files| - 1];
      NoRepeatsIffDistinct(init);
      forall i | 0 <= i < |init| ensures SeenBefore(init, i) == SeenBefore(files, i) {
        SeenBeforeInPrefix(files, i, |files| - 1);
      }
      if DistinctNames(files) {
        assert DistinctNames(init) by {
          forall i, j | 0 <= i < j < |init| ensures init[i].name != init[j].name {
            assert files[i] == init[i] && files[j] == init[j];
          }
        }
        assert !SeenBefore(files, |files| - 1);
      }
      if Repeats(files) == [] {
        assert Repeats(init) == [];
        assert !SeenBefore(files, |files| - 1);
        forall i, j | 0 <= i < j < |files| ensures files[i].name != files[j].name {
          if j < |files| - 1 {
            assert init[i] == files[i] && init[j] == files[j];
          }
        }
      }
    }
  }

  /** Dedup idempotence: scanning the survivors again finds no duplicate */
  lemma RescanFindsNothing(files: seq<Record>)
    ensures Scan(Survivors(files)).duplicateIds == []
  {
    SurvivorsDistinct(files);
    NoRepeatsIffDistinct(Survivors(files));
    ScanMatchesReference(Survivors(files));
  }

  /** The catalog used as an example of first-seen-wins */
  lemma ScanExample()
    ensures var files := [Record("id1", "a"), Record("id2", "a"), Record("id3", "b"), Record("id4", "a")];
            Scan(files) == ScanState(map["a" := "id1", "b" := "id3"], ["id2", "id4"])
  {
    var files := [Record("id1", "a"), Record("id2", "a"), Record("id3", "b"), Record("id4", "a")];
    assert files[..3] == [Record("id1", "a"), Record("id2", "a"), Record("id3", "b")];
    assert files[..3][..2] == [Record("id1", "a"), Record("id2", "a")];
    assert files[..3][..2][..1] == [Record("id1", "a")];
    assert Scan([Record("id1", "a")]) == ScanState(map["a" := "id1"], []);
  }

  /** How the store answers a delete request for an id */
  datatype DeleteResult = Deleted | DeleteRaised

  /** One call of `delete_file` and what it returned */
  datatype Attempt = Attempt(id: string, deleted: bool)

  /** `delete_file`: reports the store's outcome as a bool, absorbing a raised failure as false */
  function DeleteFile(id: string, storeDelete: string -> DeleteResult): (ok: bool)
    ensures ok <==> storeDelete(id) == Deleted
    ensures !ok <==> storeDelete(id) == DeleteRaised
  {
    match storeDelete(id)
    case Deleted => true
    case DeleteRaised => false
  }

  /** One `delete_file` call per id, in order */
  function Attempts(ids: seq<string>, storeDelete: string -> DeleteResult): seq<Attempt> {
    seq(|ids|, k requires 0 <= k < |ids| => Attempt(ids[k], DeleteFile(ids[k], storeDelete)))
  }

  /** The attempts one pass of `remove_duplicate_files` makes */
  function DedupPass(store: seq<Response>, storeDelete: string -> DeleteResult): seq<Attempt> {
    match Catalog.Catalog(store)
    case None => []
    case Some(files) =>
      if files == [] then [] else Attempts(Scan(files).duplicateIds, storeDelete)
  }

  /** The scan loop of `remove_duplicate_files` */
  method ScanCatalog(files: seq<Record>) returns (fileNames: map<string, string>, duplicateIds: seq<string>)
    ensures ScanState(fileNames, duplicateIds) == Scan(files)
  {
    fileNames, duplicateIds := map[], [];
    for i := 0 to |files|
      invariant ScanState(fileNames, duplicateIds) == Scan(files[..i])
    {
      assert files[..i + 1][..i] == files[..i];
      var fileName := files[i].name;
      var fileId := files[i].id;
      if fileName in fileNames {
        duplicateIds := duplicateIds + [fileId];
      } else {
        fileNames := fileNames[fileName := fileId];
      }
    }
    assert files[..|files|] == files;
  }

  /** The delete loop: every id is attempted, whatever the earlier outcomes */
  method DeleteEach(ids: seq<string>, storeDelete: string -> DeleteResult) returns (trace: seq<Attempt>)
    ensures |trace| == |ids|
    ensures forall k :: 0 <= k < |ids| ==> trace[k] == Attempt(ids[k], DeleteFile(ids[k], storeDelete))
  {
    trace := [];
    for i := 0 to |ids|
      invariant |trace| == i
      invariant forall k :: 0 <= k < i ==> trace[k] == Attempt(ids[k], DeleteFile(ids[k], storeDelete))
    {
      var ok := DeleteFile(ids[i], storeDelete);
      trace := trace + [Attempt(ids[i], ok)];
    }
  }

  /** `remove_duplicate_files`, returning the delete calls it made */
  method RemoveDuplicateFiles(store: seq<Response>, storeDelete: string -> DeleteResult)
    returns (trace: seq<Attempt>)
    ensures trace == DedupPass(store, storeDelete)
  {
    var listing := Catalog.CollectCatalog(store);
    if listing.None? {
      // the listing raised; the handler logs it and deletes nothing
      return [];
    }
    var files := listing.value;
    if files == [] {
      return [];
    }
    var fileNames, duplicateIds := ScanCatalog(files);
    trace := [];
    if duplicateIds != [] {
      trace := DeleteEach(duplicateIds, storeDelete);
    }
  }

  /**
   * What a pass deletes: nothing when listing fails; otherwise one attempt
   * per repeated record, in catalog order, each with the store's outcome.
   */
  lemma DedupPassDeletesRepeats(store: seq<Response>, storeDelete: string -> DeleteResult)
    ensures Catalog.Catalog(store).None? ==> DedupPass(store, storeDelete) == []
    ensures Catalog.Catalog(store).Some? ==>
              DedupPass(store, storeDelete) == Attempts(Repeats(Catalog.Catalog(store).value), storeDelete)
  {
    if Catalog.Catalog(store).Some? {
      ScanMatchesReference(Catalog.Catalog(store).value);
    }
  }

  /** A catalog whose names are all distinct leads to no delete call */
  lemma DistinctCatalogDeletesNothing(store: seq<Response>, storeDelete: string -> DeleteResult)
    requires Catalog.Catalog(store).Some? && DistinctNames(Catalog.Catalog(store).value)
    ensures DedupPass(store, storeDelete) == []
  {
    DedupPassDeletesRepeats(store, storeDelete);
    NoRepeatsIffDistinct(Catalog.Catalog(store).value);
  }

  /** A failing delete does not stop the next one from being attempted */
  lemma FailureIsolationExample()
    ensures var store := [Page([Record("id1", "a"), Record("id2", "a")], Some("t")),
                          Page([Record("id3", "b"), Record("id4", "a")], None)];
            var storeDelete := (id: string) => if id == "id2" then DeleteRaised else Deleted;
            DedupPass(store, storeDelete) == [Attempt("id2", false), Attempt("id4", true)]
  {
    var store := [Page([Record("id1", "a"), Record("id2", "a")], Some("t")),
                  Page([Record("id3", "b"), Record("id4", "a")], None)];
    var files := [Record("id1", "a"), Record("id2", "a"), Record("id3", "b"), Record("id4", "a")];
    assert Catalog.PagesFrom(store, 1, false) == Some(store[1].files);
    assert store[0].files + store[1].files == files;
    assert Catalog.Catalog(store) == Some(files);
    ScanExample();
  }
}
