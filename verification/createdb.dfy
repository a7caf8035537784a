/**
 * The loops of `create_db` that reconcile the store with the image folder, proved to
 * compute the definitions of module `Reconciliation`, and the reconciliation with the
 * image-extension filter fixed.
 */
module CreateDb {
  import opened PathNames
  import opened Documents
  import opened Reconciliation

  /** The state of the ingest loop of `create_db`. */
  datatype IngestRun = IngestRun(
    existing: set<Path>,
    attempted: seq<Document>,
    store: Store,
    failed: seq<Path>)

  /**
   * The ingest loop: each kept entry is added to `existing` before its write is attempted,
   * a document is written for it, and a raising write is logged without stopping the loop.
   * Entries the filter rejects are skipped without any write.
   */
  method IngestFolder(listing: seq<Path>, store: Store, write: (Store, Document) -> WriteOutcome, keep: Path -> bool)
    returns (r: IngestRun)
    ensures forall p :: p in r.existing <==> p in listing && keep(p)
    ensures r.attempted == ImageDocuments(Kept(listing, keep))
    ensures WriteRun(r.store, r.failed) == WriteAll(store, r.attempted, write)
    ensures forall p :: p in r.failed ==> p in r.existing
  {
    r := IngestRun({}, [], store, []);
    ghost var kept: seq<Path> := [];
    var i := 0;
    while i < |listing|
      invariant 0 <= i <= |listing|
      invariant kept == Kept(listing[..i], keep)
      invariant r.existing == set x | x in kept
      invariant r.attempted == ImageDocuments(kept)
      invariant WriteRun(r.store, r.failed) == WriteAll(store, r.attempted, write)
    {
      var p := listing[i];
      KeptSnoc(listing, i, keep);
      if keep(p) {
        var doc := NewImageDocument(p);
        ImageDocumentsSnoc(kept, p);
        WriteAllSnoc(store, r.attempted, doc, write);
        kept := kept + [p];
        r := r.(existing := r.existing + {p}, attempted := r.attempted + [doc]);
        var outcome := write(r.store, doc);
        r := r.(store := outcome.store);
        if outcome.WriteFailed? {
          r := r.(failed := r.failed + [p]);
        }
      }
      i := i + 1;
    }
    assert listing[..i] == listing;
    KeptMembers(listing, keep);
    ImageDocumentsDescribePaths(Kept(listing, keep));
  }

  /**
   * The prune loop: the store is snapshotted, then each snapshotted document whose path is
   * not in `existing` is deleted by id. The snapshot order is the library's, so any order
   * is allowed here.
   */
  method PruneStore(store: Store, existing: set<Path>) returns (r: Store)
    ensures r == Prune(store, existing)
  {
    r := store;
    var pending := store.Keys;
    while pending != {}
      invariant pending <= store.Keys
      invariant r.Keys <= store.Keys
      invariant forall id :: id in r ==> r[id] == store[id]
      invariant forall id :: id in pending ==> id in r
      invariant forall id :: id in store && id !in pending ==> (id in r <==> store[id].content in existing)
      decreases pending
    {
      var id :| id in pending;
      var doc := store[id];
      if doc.content !in existing {
        r := r - {id};
      }
      pending := pending - {id};
    }
  }

  /** The ingest loop followed by the prune loop computes `Reconcile`. */
  method SynchronizeFolder(listing: seq<Path>, store: Store, write: (Store, Document) -> WriteOutcome, keep: Path -> bool)
    returns (r: Store)
    ensures r == Reconcile(listing, store, write, keep)
  {
    var ingest := IngestFolder(listing, store, write, keep);
    assert ingest.existing == ExistingPaths(listing, keep);
    r := PruneStore(ingest.store, ingest.existing);
  }


  /** `create_db`'s reconciliation, with the image-extension allow-list as the filter. */
  method ReconcileImageFolder(listing: seq<Path>, store: Store, write: (Store, Document) -> WriteOutcome)
    returns (r: Store)
    ensures r == Reconcile(listing, store, write, IsImage)
    ensures forall id :: id in r ==> r[id].content in listing && IsImage(r[id].content)
  {
    r := SynchronizeFolder(listing, store, write, IsImage);
  }

  /** Of `photo.JPG`, `notes.txt` and `archive.zip`, only the photo counts as existing. */
  lemma MixedFolderExample()
    ensures ExistingPaths(["photos/photo.JPG", "photos/notes.txt", "photos/archive.zip"], IsImage) == {"photos/photo.JPG"}
  {
    UpperCaseExtensionIsImage();
    TextFileIsNotImage();
    ArchiveIsNotImage();
  }
}
