/**
 * What reconciling the store with the image folder computes: filter the listing, write one
 * document per kept file, then drop every stored document whose path was not kept. The
 * filter is a parameter `keep` so that these definitions do not depend on how a suffix is
 * computed; `create_db` uses `PathNames.IsImage` (see module `CreateDb`).
 */
module Reconciliation {
  import opened PathNames
  import opened Documents

  /** The kept entries of a listing, in listing order. */
  function Kept(listing: seq<Path>, keep: Path -> bool): (q: seq<Path>)
    decreases |listing|
  {
    if |listing| == 0 then []
    else
      var init := listing[..|listing| - 1];
      var last := listing[|listing| - 1];
      if keep(last) then Kept(init, keep) + [last] else Kept(init, keep)
  }

  /** A path is kept exactly when it is an entry of the listing that passes the filter. */
  lemma {:induction false} KeptMembers(listing: seq<Path>, keep: Path -> bool)
    ensures forall p :: p in Kept(listing, keep) <==> p in listing && keep(p)
    decreases |listing|
  {
    if |listing| > 0 {
      var init := listing[..|listing| - 1];
      assert listing == init + [listing[|listing| - 1]];
      KeptMembers(init, keep);
    }
  }

  /** Extending the listing by one entry extends the kept paths by that entry when it passes. */
  lemma KeptSnoc(listing: seq<Path>, i: nat, keep: Path -> bool)
    requires i < |listing|
    ensures Kept(listing[..i + 1], keep) == Kept(listing[..i], keep) + (if keep(listing[i]) then [listing[i]] else [])
  {
    assert listing[..i + 1][..i] == listing[..i];
  }

  /** The set `existing_images`: every kept path of the listing. */
  function ExistingPaths(listing: seq<Path>, keep: Path -> bool): (s: set<Path>)
    ensures forall p :: p in s <==> p in listing && keep(p)
  {
    KeptMembers(listing, keep);
    set p | p in Kept(listing, keep)
  }

  /** The documents built for a sequence of paths, one per path, in order. */
  function ImageDocuments(paths: seq<Path>): (docs: seq<Document>)
    decreases |paths|
  {
    if |paths| == 0 then []
    else ImageDocuments(paths[..|paths| - 1]) + [NewImageDocument(paths[|paths| - 1])]
  }

  /** Appending a path appends its document. */
  lemma ImageDocumentsSnoc(paths: seq<Path>, p: Path)
    ensures ImageDocuments(paths + [p]) == ImageDocuments(paths) + [NewImageDocument(p)]
  {
    assert (paths + [p])[..|paths|] == paths;
  }

  /** The paths a sequence of documents was built from. */
  function ContentsOf(docs: seq<Document>): (ps: seq<Path>)
    ensures |ps| == |docs|
    ensures forall i :: 0 <= i < |docs| ==> ps[i] == docs[i].content
  {
    seq(|docs|, i requires 0 <= i < |docs| => docs[i].content)
  }

  /** Appending a document appends its path. */
  lemma ContentsOfSnoc(docs: seq<Document>, d: Document)
    ensures ContentsOf(docs + [d]) == ContentsOf(docs) + [d.content]
  {
  }

  /**
   * The documents built for a sequence of paths describe those paths: each has one of
   * them as `content`, the `image` type tag, the base name as `meta.filename` and no
   * embedding, and their contents are the paths themselves, in order.
   */
  lemma {:induction false} ImageDocumentsDescribePaths(paths: seq<Path>)
    ensures ContentsOf(ImageDocuments(paths)) == paths
    ensures forall d :: d in ImageDocuments(paths) ==>
      && d.content in paths
      && d.contentType == ImageContentType
      && d.meta == map[FilenameKey := Name(d.content)]
      && d.embedding.None?
    decreases |paths|
  {
    if |paths| > 0 {
      var init := paths[..|paths| - 1];
      var last := paths[|paths| - 1];
      ImageDocumentsDescribePaths(init);
      var docs := ImageDocuments(init);
      var d := NewImageDocument(last);
      assert ImageDocuments(paths) == docs + [d];
      ContentsOfSnoc(docs, d);
      assert paths == init + [last];
      assert forall e :: e in docs + [d] ==> e in docs || e == d;
    }
  }

  /**
   * What one `write_documents` call did: it returned, or it raised. Either way the call
   * leaves some store behind; what a raising call leaves is up to the store library, as
   * nothing in `create_db` rolls it back.
   */
  datatype WriteOutcome = Written(store: Store) | WriteFailed(store: Store, reason: string)

  /** A store operation that raises on every call. */
  ghost predicate AlwaysFails(write: (Store, Document) -> WriteOutcome)
  {
    forall s, d :: write(s, d).WriteFailed?
  }

  /** A store operation that never raises. */
  ghost predicate NeverFails(write: (Store, Document) -> WriteOutcome)
  {
    forall s, d :: write(s, d).Written?
  }

  /** A store operation that, when it raises, leaves the store as it found it. */
  ghost predicate RaisesWithoutEffect(write: (Store, Document) -> WriteOutcome)
  {
    forall s, d :: write(s, d).WriteFailed? ==> write(s, d).store == s
  }

  /** The store after a run of writes, and the paths whose write raised (logged, then skipped). */
  datatype WriteRun = WriteRun(store: Store, failed: seq<Path>)

  /** One write of the loop: the run goes on with the store the call left, and a raise is recorded. */
  function WriteStep(run: WriteRun, doc: Document, write: (Store, Document) -> WriteOutcome): (next: WriteRun)
  {
    match write(run.store, doc)
    case Written(s) => WriteRun(s, run.failed)
    case WriteFailed(s, _) => WriteRun(s, run.failed + [doc.content])
  }

  /**
   * Writes the documents one after another; each write sees the store the previous ones left,
   * and a write that raises is recorded and the run carries on.
   */
  function WriteAll(store: Store, docs: seq<Document>, write: (Store, Document) -> WriteOutcome): (r: WriteRun)
    ensures |r.failed| <= |docs|
    ensures forall p :: p in r.failed ==> p in ContentsOf(docs)
    ensures NeverFails(write) ==> r.failed == []
    ensures AlwaysFails(write) ==> r.failed == ContentsOf(docs)
    ensures AlwaysFails(write) && RaisesWithoutEffect(write) ==> r.store == store
    decreases |docs|
  {
    if |docs| == 0 then WriteRun(store, [])
    else
      var init := docs[..|docs| - 1];
      ContentsOfSnoc(init, docs[|docs| - 1]);
      assert docs == init + [docs[|docs| - 1]];
      WriteStep(WriteAll(store, init, write), docs[|docs| - 1], write)
  }

  /** Writing one more document is one more step of the run. */
  lemma WriteAllSnoc(store: Store, docs: seq<Document>, d: Document, write: (Store, Document) -> WriteOutcome)
    ensures WriteAll(store, docs + [d], write) == WriteStep(WriteAll(store, docs, write), d, write)
  {
    assert (docs + [d])[..|docs|] == docs;
  }

  /**
   * The store after the prune: the documents whose `content` is in `existing`, each under
   * its own id and unchanged; every other document is gone.
   */
  function Prune(store: Store, existing: set<Path>): (r: Store)
    ensures forall id :: id in r ==> id in store && r[id] == store[id]
    ensures forall id :: id in r ==> r[id].content in existing
    ensures forall id :: id in store && store[id].content in existing ==> id in r
  {
    map id | id in store && store[id].content in existing :: store[id]
  }

  /** The store at the end of the reconciliation: all kept files written, then the prune. */
  function Reconcile(listing: seq<Path>, store: Store, write: (Store, Document) -> WriteOutcome, keep: Path -> bool): (r: Store)
    ensures forall id :: id in r ==> r[id].content in listing && keep(r[id].content)
  {
    var written := WriteAll(store, ImageDocuments(Kept(listing, keep)), write).store;
    Prune(written, ExistingPaths(listing, keep))
  }

  /** Pruning removes exactly the documents whose path is not in `existing`. */
  lemma PruneRemovesExactlyStale(store: Store, existing: set<Path>)
    ensures store.Keys - Prune(store, existing).Keys == set id | id in store && store[id].content !in existing
  {
  }

  /** Pruning twice with the same set changes nothing the second time. */
  lemma PruneIdempotent(store: Store, existing: set<Path>)
    ensures Prune(Prune(store, existing), existing) == Prune(store, existing)
  {
  }

  /** Pruning keeps distinct documents distinct in their paths. */
  lemma PrunePreservesUniqueContent(store: Store, existing: set<Path>)
    requires UniqueContent(store)
    ensures UniqueContent(Prune(store, existing))
  {
  }

  /** A folder with no kept file empties the store, whatever the writes did. */
  lemma EmptyFolderEmptiesStore(listing: seq<Path>, store: Store, write: (Store, Document) -> WriteOutcome, keep: Path -> bool)
    requires forall p :: p in listing ==> !keep(p)
    ensures ExistingPaths(listing, keep) == {}
    ensures Reconcile(listing, store, write, keep) == map[]
  {
  }

  /**
   * Whatever the writes do, a path whose write raised still counts as existing, and every
   * document the writes left stored for a kept file survives the prune unchanged.
   */
  lemma KeptDocumentsSurvivePrune(listing: seq<Path>, store: Store, write: (Store, Document) -> WriteOutcome, keep: Path -> bool)
    ensures var run := WriteAll(store, ImageDocuments(Kept(listing, keep)), write);
      && (forall p :: p in run.failed ==> p in ExistingPaths(listing, keep))
      && forall id :: id in run.store && run.store[id].content in listing && keep(run.store[id].content) ==>
        id in Reconcile(listing, store, write, keep) && Reconcile(listing, store, write, keep)[id] == run.store[id]
  {
    var kept := Kept(listing, keep);
    var run := WriteAll(store, ImageDocuments(kept), write);
    ImageDocumentsDescribePaths(kept);
    KeptMembers(listing, keep);
    assert Reconcile(listing, store, write, keep) == Prune(run.store, ExistingPaths(listing, keep));
  }

  /**
   * When every write raises, every kept path is recorded as failed. If the raising writes
   * also left the store as they found it, the result is the original store pruned, and
   * every document already stored for a kept file survives unchanged.
   */
  lemma FailedWritesKeepExistingDocuments(listing: seq<Path>, store: Store, write: (Store, Document) -> WriteOutcome, keep: Path -> bool)
    requires AlwaysFails(write)
    ensures WriteAll(store, ImageDocuments(Kept(listing, keep)), write).failed == Kept(listing, keep)
    ensures RaisesWithoutEffect(write) ==>
      && Reconcile(listing, store, write, keep) == Prune(store, ExistingPaths(listing, keep))
      && forall id :: id in store && store[id].content in listing && keep(store[id].content) ==>
        id in Reconcile(listing, store, write, keep) && Reconcile(listing, store, write, keep)[id] == store[id]
  {
    var kept := Kept(listing, keep);
    var run := WriteAll(store, ImageDocuments(kept), write);
    var existing := ExistingPaths(listing, keep);
    ImageDocumentsDescribePaths(kept);
    KeptMembers(listing, keep);
    assert Reconcile(listing, store, write, keep) == Prune(run.store, existing);
  }
}
