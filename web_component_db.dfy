/**
 * The workspace index: an in-memory model of the nedb collection held by
 * `WebComponentDb`, with its unique index on `folder`.
 *
 * The collection is a map from folder to repository descriptor, so two
 * records with the same folder cannot exist; `RecordsOf` turns the map back
 * into the set of `{folder, repo}` documents the datastore holds.
 */
module WorkspaceDb {
  import opened Wrappers

  /** A bower `repository` descriptor: its `type` and its `url`. */
  datatype Repo = Repo(kind: string, url: string)

  /** One stored document `{folder, repo}`. */
  datatype Record = Record(folder: string, repo: Repo)

  /** The error nedb reports when an insert violates the unique index. */
  datatype InsertError = UniqueViolated(key: string)

  /** The documents a store holds; the unique index makes `folder` a key. */
  function RecordsOf(store: map<string, Repo>): (rs: set<Record>)
    ensures forall r :: r in rs <==> r.folder in store && store[r.folder] == r.repo
    ensures forall r1, r2 :: r1 in rs && r2 in rs && r1.folder == r2.folder ==> r1 == r2
  {
    set f | f in store :: Record(f, store[f])
  }

  /** The documents of a store whose folder is `folder` (the query `{folder: folder}`). */
  function Matching(store: map<string, Repo>, folder: string): set<Record> {
    set r | r in RecordsOf(store) && r.folder == folder
  }

  /** The store after an insert of `{folder, repo}` under the unique index. */
  function Inserted(store: map<string, Repo>, folder: string, repo: Repo): map<string, Repo> {
    if folder in store then store else store[folder := repo]
  }

  /** A query by folder finds exactly one document if the folder is stored, and none otherwise. */
  lemma MatchingCount(store: map<string, Repo>, folder: string)
    ensures folder in store ==> Matching(store, folder) == {Record(folder, store[folder])}
    ensures folder !in store ==> Matching(store, folder) == {}
    ensures |Matching(store, folder)| == 1 <==> folder in store
  {
    if folder in store {
      var r := Record(folder, store[folder]);
      assert r in Matching(store, folder);
      assert Matching(store, folder) == {r};
    } else {
      assert Matching(store, folder) == {};
    }
  }

  /** An insert for a new folder adds exactly its document; one for a stored folder changes nothing. */
  lemma InsertedRecords(store: map<string, Repo>, folder: string, repo: Repo)
    ensures folder !in store ==> RecordsOf(Inserted(store, folder, repo)) == RecordsOf(store) + {Record(folder, repo)}
    ensures folder in store ==> RecordsOf(Inserted(store, folder, repo)) == RecordsOf(store)
  {
    if folder !in store {
      var s' := Inserted(store, folder, repo);
      forall r | r in RecordsOf(s')
        ensures r in RecordsOf(store) + {Record(folder, repo)}
      {
        if r.folder != folder {
          assert r.folder in store;
        }
      }
    }
  }

  /** An insert for `folder` never changes the documents of another folder. */
  lemma InsertedFrame(store: map<string, Repo>, folder: string, repo: Repo, other: string)
    requires other != folder
    ensures other in Inserted(store, folder, repo) <==> other in store
    ensures other in store ==> Inserted(store, folder, repo)[other] == store[other]
  {
  }

  /** Adding the same folder twice leaves the store of adding it once, whatever the second repo. */
  lemma InsertedIdempotent(store: map<string, Repo>, folder: string, repo: Repo, repo': Repo)
    ensures Inserted(Inserted(store, folder, repo), folder, repo') == Inserted(store, folder, repo)
  {
  }

  /**
   * `WebComponentDb`: the datastore handle. `store` is the collection after
   * nedb's autoload of the configuration file.
   */
  class WebComponentDb {
    var store: map<string, Repo>

    /** Opens the index over the documents already persisted in the configuration file. */
    constructor (persisted: map<string, Repo>)
      ensures store == persisted
    {
      store := persisted;
    }

    /**
     * `addPackage`: inserts `{folder, repo}`. A duplicate folder is reported
     * as an error value (the promise resolves with it, never rejects) and
     * leaves the store as it was.
     */
    method AddPackage(folder: string, repo: Repo) returns (err: Option<InsertError>)
      modifies this
      ensures err.None? <==> folder !in old(store)
      ensures err.Some? ==> err.value == UniqueViolated(folder)
      ensures store == Inserted(old(store), folder, repo)
      ensures err.None? ==> RecordsOf(store) == RecordsOf(old(store)) + {Record(folder, repo)}
      ensures err.Some? ==> store == old(store)
    {
      InsertedRecords(store, folder, repo);
      if folder in store {
        err := Some(UniqueViolated(folder));
      } else {
        store := store[folder := repo];
        err := None;
      }
    }

    /**
     * The compensating delete that `load` calls after a failed clone. The
     * JavaScript class does not define it; see the findings in README.md.
     */
    method RemovePackage(folder: string)
      modifies this
      ensures store == old(store) - {folder}
      ensures folder !in store
    {
      store := store - {folder};
    }

    /** `hasPackage`: true exactly when the query by folder finds one document. */
    method HasPackage(folder: string) returns (found: bool)
      ensures found <==> |Matching(store, folder)| == 1
      ensures found <==> folder in store
    {
      MatchingCount(store, folder);
      found := folder in store;
    }

    /** `getPackages`: every stored document, once each, and nothing else. */
    method GetPackages() returns (packages: seq<Record>)
      ensures forall r :: r in packages <==> r in RecordsOf(store)
      ensures forall i, j :: 0 <= i < j < |packages| ==> packages[i].folder != packages[j].folder
    {
      var pending := store.Keys;
      packages := [];
      while pending != {}
        invariant pending <= store.Keys
        invariant forall r :: r in packages <==> r.folder in store.Keys - pending && store[r.folder] == r.repo
        invariant forall i, j :: 0 <= i < j < |packages| ==> packages[i].folder != packages[j].folder
        decreases pending
      {
        var f :| f in pending;
        packages := packages + [Record(f, store[f])];
        pending := pending - {f};
      }
    }
  }
}
