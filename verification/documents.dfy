/** The document records held by the vector store, and how one is built for an image file. */
module Documents {
  import opened Wrappers
  import opened PathNames

  /** Document ids are assigned by the store library; the model treats them as opaque strings. */
  type Id = string

  /** An embedding vector; its values come from the embedding model and are never inspected here. */
  type Vector = seq<real>

  /** One stored document: the source path, a type tag, metadata and an optional embedding. */
  datatype Document = Document(
    content: string,
    contentType: string,
    meta: map<string, string>,
    embedding: Option<Vector>)

  /** The store's contents as `get_all_documents` would enumerate them, keyed by id. */
  type Store = map<Id, Document>

  /** The type tag given to every indexed image. */
  const ImageContentType: string := "image"

  /** The metadata key holding the file's base name. */
  const FilenameKey: string := "filename"

  /** The document written for an image file, before the store assigns an id or an embedding. */
  function NewImageDocument(p: Path): (d: Document)
  {
    Document(p, ImageContentType, map[FilenameKey := Name(p)], None)
  }

  /** No two documents of the store share a `content` path. */
  ghost predicate UniqueContent(store: Store)
  {
    forall a, b :: a in store && b in store && store[a].content == store[b].content ==> a == b
  }
}
