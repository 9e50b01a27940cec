/**
 * The two paging loops of the drive handler.
 *
 * `remove_duplicate_files` keeps requesting pages until a response carries
 * no (or an empty) continuation token. `list_files` does the same but also
 * stops at the first page that holds no records, even when that page still
 * carries a token. Both are described by one function, `PagesFrom`, whose
 * flag `emptyPageStops` is the only difference between them.
 */
module Catalog {
  import opened DriveStore

  /** `acc` in front of a listing outcome; a failed listing stays failed */
  function Prepend(acc: seq<Record>, rest: Option<seq<Record>>): Option<seq<Record>> {
    match rest
    case None => None
    case Some(fs) => Some(acc + fs)
  }

  lemma PrependTwice(a: seq<Record>, b: seq<Record>, rest: Option<seq<Record>>)
    ensures Prepend(a, Prepend(b, rest)) == Prepend(a + b, rest)
  {
    if rest.Some? {
      assert a + (b + rest.value) == (a + b) + rest.value;
    }
  }

  /**
   * What the paging loop collects from page k on: None when a request
   * raises, otherwise the records of every page up to the one it stops at.
   */
  function PagesFrom(store: seq<Response>, k: nat, emptyPageStops: bool): Option<seq<Record>>
    decreases |store| - k
  {
    if k >= |store| then None
    else match store[k]
      case ListError => None
      case Page(fs, next) =>
        if !HasToken(next) || (emptyPageStops && fs == []) then Some(fs)
        else Prepend(fs, PagesFrom(store, k + 1, emptyPageStops))
  }

  /** The catalog `remove_duplicate_files` builds: only the token ends the walk */
  function Catalog(store: seq<Response>): Option<seq<Record>> {
    PagesFrom(store, 0, false)
  }

  /** The records `list_files` collects: an empty page ends the walk too */
  function Listed(store: seq<Response>): Option<seq<Record>> {
    PagesFrom(store, 0, true)
  }

  /** The loop fetches page i successfully and goes on to page i + 1 */
  predicate Continues(store: seq<Response>, i: nat, emptyPageStops: bool)
    requires i < |store|
  {
    store[i].Page? && HasToken(store[i].next) && !(emptyPageStops && store[i].files == [])
  }

  /** Started at page k, the loop fetches pages k..n without error and stops after page n */
  predicate StopsAt(store: seq<Response>, k: nat, n: nat, emptyPageStops: bool) {
    && k <= n < |store|
    && (forall i :: k <= i < n ==> Continues(store, i, emptyPageStops))
    && store[n].Page?
    && !Continues(store, n, emptyPageStops)
  }

  lemma {:induction false} StopsAtCollects(store: seq<Response>, k: nat, n: nat, emptyPageStops: bool)
    requires StopsAt(store, k, n, emptyPageStops)
    ensures PagesFrom(store, k, emptyPageStops) == Some(Flatten(store[k..n + 1]))
    decreases n - k
  {
    assert store[k..n + 1][1..] == store[k + 1..n + 1];
    if k < n {
      assert Continues(store, k, emptyPageStops);
      StopsAtCollects(store, k + 1, n, emptyPageStops);
    } else {
      assert store[k + 1..n + 1] == [];
      assert FilesOf(store[k]) + [] == store[k].files;
    }
  }

  lemma {:induction false} CollectsOnlyAtStop(store: seq<Response>, k: nat, emptyPageStops: bool)
    requires PagesFrom(store, k, emptyPageStops).Some?
    ensures exists n :: StopsAt(store, k, n, emptyPageStops)
    decreases |store| - k
  {
    if Continues(store, k, emptyPageStops) {
      CollectsOnlyAtStop(store, k + 1, emptyPageStops);
      var n :| StopsAt(store, k + 1, n, emptyPageStops);
      assert StopsAt(store, k, n, emptyPageStops);
    } else {
      assert StopsAt(store, k, k, emptyPageStops);
    }
  }

  /**
   * The paging loop succeeds exactly when some page n ends the walk with
   * every earlier page fetched, and then it returns the records of pages
   * 0..n concatenated in store order.
   */
  lemma PagesCharacterization(store: seq<Response>, emptyPageStops: bool)
    ensures PagesFrom(store, 0, emptyPageStops).Some? <==> exists n :: StopsAt(store, 0, n, emptyPageStops)
    ensures forall n :: StopsAt(store, 0, n, emptyPageStops) ==>
              PagesFrom(store, 0, emptyPageStops) == Some(Flatten(store[..n + 1]))
  {
    forall n | StopsAt(store, 0, n, emptyPageStops)
      ensures PagesFrom(store, 0, emptyPageStops) == Some(Flatten(store[..n + 1]))
    {
      StopsAtCollects(store, 0, n, emptyPageStops);
      assert store[0..n + 1] == store[..n + 1];
    }
    if PagesFrom(store, 0, emptyPageStops).Some? {
      CollectsOnlyAtStop(store, 0, emptyPageStops);
    }
  }

  /**
   * Pagination completeness for `remove_duplicate_files`: when page n is the
   * first page without a token and no request before it fails, the catalog
   * is every record of pages 0..n in order, empty pages with a token included;
   * when no such page exists, listing fails.
   */
  lemma CatalogComplete(store: seq<Response>)
    ensures Catalog(store).Some? <==> exists n :: StopsAt(store, 0, n, false)
    ensures forall n :: StopsAt(store, 0, n, false) ==> Catalog(store) == Some(Flatten(store[..n + 1]))
    ensures forall n :: StopsAt(store, 0, n, false) ==>
              forall i :: 0 <= i < n ==> store[i].Page? && HasToken(store[i].next)
  {
    PagesCharacterization(store, false);
    forall n: nat, i: nat | StopsAt(store, 0, n, false) && 0 <= i < n
      ensures store[i].Page? && HasToken(store[i].next)
    {
      assert Continues(store, i, false);
    }
  }

  /**
   * `list_files` returns the records of pages 0..n, where page n is the
   * first page with no token or no records; a failed request before that
   * leaves it with nothing.
   */
  lemma ListedComplete(store: seq<Response>)
    ensures Listed(store).Some? <==> exists n :: StopsAt(store, 0, n, true)
    ensures forall n :: StopsAt(store, 0, n, true) ==> Listed(store) == Some(Flatten(store[..n + 1]))
    ensures forall n :: StopsAt(store, 0, n, true) ==>
              forall i :: 0 <= i < n ==> store[i].Page? && store[i].files != [] && HasToken(store[i].next)
  {
    PagesCharacterization(store, true);
    forall n: nat, i: nat | StopsAt(store, 0, n, true) && 0 <= i < n
      ensures store[i].Page? && store[i].files != [] && HasToken(store[i].next)
    {
      assert Continues(store, i, true);
    }
  }

  /**
   * Where the two loops agree: when both succeed, `list_files` sees a prefix
   * of the catalog of `remove_duplicate_files`, and all of it unless an empty
   * page with a token comes before the catalog's last page.
   */
  lemma ListedIsCatalogPrefix(store: seq<Response>)
    requires Listed(store).Some? && Catalog(store).Some?
    ensures Listed(store).value <= Catalog(store).value
    ensures (forall i :: 0 <= i < |store| && store[i].Page? && HasToken(store[i].next) ==> store[i].files != [])
            ==> Listed(store) == Catalog(store)
  {
    PagesCharacterization(store, true);
    PagesCharacterization(store, false);
    var m :| StopsAt(store, 0, m, true);
    var n :| StopsAt(store, 0, n, false);
    assert !Continues(store, n, true);
    assert store[..n + 1] == store[..m + 1] + store[m + 1..n + 1];
    FlattenAppend(store[..m + 1], store[m + 1..n + 1]);
    if forall i :: 0 <= i < |store| && store[i].Page? && HasToken(store[i].next) ==> store[i].files != [] {
      assert !Continues(store, m, false);
    }
  }

  /** The divergence: an empty page that still carries a token stops `list_files` only */
  lemma EmptyPageWithToken(r: Record)
    ensures Catalog([Page([], Some("t")), Page([r], None)]) == Some([r])
    ensures Listed([Page([], Some("t")), Page([r], None)]) == Some([])
  {
    var store := [Page([], Some("t")), Page([r], None)];
    assert PagesFrom(store, 1, false) == Some([r]);
    assert [] + [r] == [r];
  }

  /** The paging loop of `remove_duplicate_files`; a failed request yields None */
  method CollectCatalog(store: seq<Response>) returns (files: Option<seq<Record>>)
    ensures files == Catalog(store)
  {
    var acc: seq<Record> := [];
    var k: nat := 0;
    assert Catalog(store) == Prepend(acc, PagesFrom(store, k, false)) by {
      if Catalog(store).Some? { assert [] + Catalog(store).value == Catalog(store).value; }
    }
    while true
      invariant k <= |store|
      invariant Catalog(store) == Prepend(acc, PagesFrom(store, k, false))
      decreases |store| - k
    {
      var results := Fetch(store, k);
      if results.ListError? {
        return None;
      }
      PrependTwice(acc, results.files, PagesFrom(store, k + 1, false));
      acc := acc + results.files;
      if !HasToken(results.next) {
        return Some(acc);
      }
      k := k + 1;
    }
  }

  /** `list_files`: copies each record of each page; any failed request yields [] */
  method ListFiles(store: seq<Response>) returns (fileList: seq<Record>)
    ensures fileList == Listed(store).GetOr([])
  {
    var acc: seq<Record> := [];
    var k: nat := 0;
    assert Listed(store) == Prepend(acc, PagesFrom(store, k, true)) by {
      if Listed(store).Some? { assert [] + Listed(store).value == Listed(store).value; }
    }
    while true
      invariant k <= |store|
      invariant Listed(store) == Prepend(acc, PagesFrom(store, k, true))
      decreases |store| - k
    {
      var results := Fetch(store, k);
      if results.ListError? {
        return [];
      }
      var files := results.files;
      if files == [] {
        return acc;
      }
      ghost var before := acc;
      for i := 0 to |files|
        invariant acc == before + files[..i]
      {
        acc := acc + [Record(files[i].id, files[i].name)];
      }
      assert files[..|files|] == files;
      PrependTwice(before, files, PagesFrom(store, k + 1, true));
      if !HasToken(results.next) {
        return acc;
      }
      k := k + 1;
    }
  }
}
