# Image-folder index reconciliation

A Dafny model of the core of a command-line image search tool. The tool indexes a folder
of images into a FAISS vector store (through the haystack library) and answers image or
text queries against it. The model covers the part of `create_db` that brings the store
in line with the folder, and the way the store is opened before indexing and before
searching.

- **Extension filter** (module `PathNames`). A directory entry is indexed when the
  lower-cased suffix of its final path component is one of `.jpg`, `.jpeg`, `.png`, `.gif`
  or `.bmp`. `Name` and `Suffix` follow `pathlib`'s rules: the name is the text after the
  last `/`; the suffix runs from the last `.` of the name, and only when that dot is
  neither the first nor the last character. `IsImage` reads the same suffix off the whole
  path, and a lemma proves the two readings agree. A second lemma characterises the filter
  independently: the name ends, ignoring case, with an allow-listed extension and has at
  least one character before it.
- **Reconciliation** (modules `Reconciliation` and `CreateDb`). The store is a map from
  document id to `Document` (content path, type tag, metadata, optional embedding).
  `IngestFolder` is the loop at main.py:93-104. Each kept entry goes into
  `existing_images` before its write is tried. Its document has the path as `content`,
  type `image` and the base name as `meta.filename`. A write that raises is logged and the
  loop goes on. `PruneStore` is the loop at main.py:107-111: it snapshots the store and
  deletes by id every document whose `content` is not in `existing_images`. Both loops are
  proved to compute the functional definitions `WriteAll`, `Prune` and `Reconcile`. The
  lemmas about those definitions are stated for arbitrary listings, stores and write
  functions, under the hypotheses each one names. `FailedWritesKeepExistingDocuments`
  assumes every write raises; `KeptDocumentsSurvivePrune` assumes nothing about the writes. The
  filter is a parameter `keep` of these members. `create_db` passes `IsImage`, as
  `CreateDb.ReconcileImageFolder` does.
- **Store operations as parameters.** `write_documents` is a function
  `(Store, Document) -> WriteOutcome`. It returns a new store, or it raises and leaves
  some store behind. Nothing rolls a raising call back, so what that store holds is up to
  the library. Nothing is assumed about duplicates or id assignment, because the code writes
  every kept file unconditionally. Deleting by id is removing the key. The embedding model and the
  similarity search are one function `retrieve`.
- **Opening the store** (module `Loading`). `LoadDb` turns any load failure into `None`.
  `SearchWithImage` and `SearchWithText` return `NoDatabase` before building a retriever
  when that happens. `OpenForCreate` is the load-or-create step of `create_db` as written.
  When a load fails, `create_db` goes on with whatever the store constructor does: the
  parameter `created`, which may be a store or an error. That store is not necessarily
  empty, because its sqlite file lives in the same database folder and may hold an earlier
  run's rows. When the database folder does not exist, `document_store` is never assigned,
  and the model returns the error `StoreUnbound` rather than inventing a fresh store.

The model follows the code as written:
- Every image file is written on every run, not only files missing from the store.
- A missing database folder is an error in `create_db`, not a reason to create a new store.
- A failed load in a search is logged, and the function returns nothing; no error is raised.

## Model

| member | source | states |
|---|---|---|
| PathNames.Name | main.py:100 | the base name has no `/` and is no longer than the path |
| PathNames.NameIsFinalComponent | main.py:100 | the base name is a tail of the path, and is either the whole path or follows a `/` |
| PathNames.Suffix | main.py:94 | the suffix is empty, or is a dot followed by at least one non-dot character and is shorter than the name; it is non-empty exactly when the name has a dot after its first character and does not end in a dot |
| PathNames.SuffixIsTail | main.py:94 | a suffix is the tail of the name it came from |
| PathNames.PathSuffixIsNameSuffix | main.py:94 | reading the suffix off the whole path gives the suffix of the base name |
| PathNames.IsImageIsPathlibRule | main.py:90-94 | an entry passes the filter exactly when its lower-cased `pathlib` suffix is in the five-item allow-list |
| PathNames.IsImageIffEndsWithExtension | main.py:90-94 | an entry passes exactly when its name ends, ignoring case, with an allow-listed extension and has text before it |
| PathNames.ExtensionEndingIsImage | main.py:90-94 | a path whose name ends, ignoring case, with an allow-listed extension after at least one character passes the filter |
| PathNames.UpperCaseExtensionIsImage | main.py:94 | `photo.JPG` passes: case is ignored |
| PathNames.TextFileIsNotImage | main.py:94 | `notes.txt` does not pass |
| PathNames.ArchiveIsNotImage | main.py:94 | `archive.zip` does not pass |
| PathNames.DotFileIsNotImage | main.py:94 | a file named `.jpg` has no suffix and does not pass |
| Reconciliation.KeptMembers | main.py:93-95 | a path is among the kept entries exactly when it is in the listing and passes the filter |
| Reconciliation.ExistingPaths | main.py:91-95 | `existing_images` holds exactly the listing's entries that pass the filter |
| Reconciliation.ImageDocumentsDescribePaths | main.py:96-101 | the documents built for the kept paths carry those paths as content, in order, with type `image`, `meta.filename` equal to the base name and no embedding |
| Reconciliation.WriteAll | main.py:96-104 | only attempted paths are recorded as failed, at most one per write. When no write raises, none is recorded. When every write raises, every path is recorded, and if the raising writes also leave the store as they found it, the store is unchanged |
| Reconciliation.Prune | main.py:107-111 | after the prune every remaining document's content is in `existing_images`; every document whose content is in it stays under its id, unchanged |
| Reconciliation.PruneRemovesExactlyStale | main.py:107-111 | the deleted ids are exactly those whose content is not in `existing_images` |
| Reconciliation.PruneIdempotent | main.py:107-111 | pruning again with the same set deletes nothing more |
| Reconciliation.PrunePreservesUniqueContent | main.py:107-111 | if no two documents shared a path before the prune, none do after |
| Reconciliation.Reconcile | main.py:90-111 | after reconciliation every document's content is an entry of the listing that passes the filter |
| Reconciliation.EmptyFolderEmptiesStore | main.py:90-111 | a folder with no kept entry gives an empty `existing_images` and an empty store, whatever the writes did |
| Reconciliation.KeptDocumentsSurvivePrune | main.py:93-111 | for any write behaviour, every path whose write raised is still in `existing_images`, and every document the writes left stored for a kept path survives the prune unchanged |
| Reconciliation.FailedWritesKeepExistingDocuments | main.py:93-111 | when every write raises, every kept path is recorded as failed. If raising writes also leave the store as they found it, the result is the original store pruned, and each document already stored for a kept path survives unchanged |
| CreateDb.IngestFolder | main.py:93-104 | `existing_images` is exactly the kept entries, whatever the writes did; the documents attempted are exactly those built for the kept entries, in listing order, so entries the filter rejects are never written; the store and failure log are those of running the writes in turn; every path whose write raised is still in `existing_images` |
| CreateDb.PruneStore | main.py:107-111 | deleting by id over the snapshot, in any order, yields `Prune` of the snapshot |
| CreateDb.SynchronizeFolder | main.py:90-111 | the ingest loop followed by the prune loop yields `Reconcile` |
| CreateDb.ReconcileImageFolder | main.py:90-111 | with the extension filter, every document left is an image file of the listing |
| CreateDb.MixedFolderExample | main.py:90-95 | of `photo.JPG`, `notes.txt` and `archive.zip`, only `photo.JPG` is in `existing_images` |
| Loading.LoadDb | main.py:119-127 | the result is `None` exactly when the load raised, and is the loaded store otherwise |
| Loading.OpenForCreate | main.py:71-88 | opening fails with `StoreUnbound` exactly when the database folder is missing. A loaded store is used as loaded. After a failed load, the outcome is the constructor's: the store it opens, or its error |
| Loading.OpenAgreesWithLoad | main.py:71-88 | when the folder exists, `create_db` keeps a store that `load_db` would return, whatever the constructor would do. When `load_db` would return `None`, `create_db` takes the constructor's store or raises its error |
| Loading.SearchWithImage | main.py:145-154 | the search stops with no result exactly when the load failed; otherwise it uses an image retriever with top 3 on the image path and returns that retrieval's hits on the loaded store |
| Loading.SearchWithText | main.py:162-169 | the search stops with no result exactly when the load failed; otherwise it uses a text retriever with top 3 on the text and returns that retrieval's hits on the loaded store |
| Loading.SearchGuardsAgree | main.py:145-166 | a failed load stops both search paths the same way, whatever the retrieval would return |

## Left out

- Reconciliation.WriteAll: what a raising `write_documents` call leaves in the store is not
  constrained, because the library decides it. The unchanged-store clause holds only for
  writes that raise without effect (`RaisesWithoutEffect`).
- Reconciliation.FailedWritesKeepExistingDocuments: the survival of documents stored before
  the run holds only under `RaisesWithoutEffect`, for the same reason. Without it, survival
  is promised only for what the writes left (`KeptDocumentsSurvivePrune`).
- Loading.OpenForCreate: the constructor's outcome (main.py:81-88) is the parameter
  `created`. What it opens from an existing sqlite file is not modelled, because it belongs
  to the store library.

- Directory listing (main.py:93): the `glob("*")` result is the input sequence. It may contain
  directories, and a directory whose name has an image suffix passes the filter like a file.
- Lower-casing: `PathNames.Lower` folds ASCII letters only. Outside ASCII, only U+0130 and
  U+212A lower-case to ASCII letters, to `i` plus a combining dot and to `k`. Neither can
  produce an allow-listed extension, so the filter's decisions are the same.
- Paths are POSIX paths as `pathlib` prints them. Drive letters, backslash separators and
  path normalisation are not modelled. A trailing dot gives an empty suffix.
- `write_documents`, `get_all_documents` and `delete_documents` internals belong to the store
  library and are not part of this model. They appear as the `write` parameter, the map
  itself and key removal. Idempotence of repeated runs depends on the library's duplicate
  policy, so it is not stated.
- Embedding update and save (main.py:113-116): as written, `get_multimodal_retriever` is
  called without its required `search_type`, which raises before `update_embeddings` or
  `save` runs. The model stops after the prune and does not model persistence.
- The embedding model, the cosine top-k search and the retriever construction
  (main.py:130-142, 154, 169) are opaque. They appear as the `retrieve` parameter, and the
  retriever is reduced to its modalities and `top_k`.
- The image query path is joined to the working directory (main.py:152). The model takes
  the joined path as its input.
- Score formatting with `round(score*100, 2)` and result logging (main.py:156-159, 172-175)
  are floating point and output.
- Configuration loading, logging setup, argument parsing and command dispatch
  (main.py:19-58, 178-197) are plumbing.
