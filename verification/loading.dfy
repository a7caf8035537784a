/**
 * Opening the store: the load-or-create step at the start of `create_db`, `load_db`'s
 * conversion of any load failure into `None`, and the guard with which each search entry
 * point stops before building a retriever when no store was loaded.
 */
module Loading {
  import opened Wrappers
  import opened PathNames
  import opened Documents

  /**
   * A store load attempt: the loaded store, or the reason the load raised. What makes a
   * load fail (missing or corrupt files) belongs to the store library.
   */
  type LoadAttempt = Result<Store, string>

  /**
   * The outcome of the store constructor `create_db` falls back to: the store it opens
   * (whatever its sqlite file inside the database folder already holds), or the reason it raised.
   */
  type CreateAttempt = Result<Store, string>

  /** `load_db`: a failed load becomes `None`, a successful one the loaded store. */
  function LoadDb(attempt: LoadAttempt): (r: Option<Store>)
    ensures r.None? <==> attempt.Failure?
    ensures r.Some? ==> r.value == attempt.value
  {
    match attempt
    case Success(store) => Some(store)
    case Failure(_) => None
  }

  /** Whether a Python local variable has been assigned. */
  datatype Binding<T> = Unbound | Bound(value: T)

  /** Why opening the store for `create_db` raised. */
  datatype OpenError =
    /** `document_store` is read before any assignment, which Python reports as an error. */
    | StoreUnbound
    /** The fallback constructor raised. */
    | CreateFailed(reason: string)

  /**
   * The load-or-create step of `create_db` as written: the load is only tried when the
   * database folder exists, and its failure falls back to the store the constructor opens;
   * when the folder does not exist, `document_store` is never assigned and the following
   * test raises. `created` is what the constructor does when it is called.
   */
  function OpenForCreate(dbExists: bool, attempt: LoadAttempt, created: CreateAttempt): (r: Result<Store, OpenError>)
    ensures r == Failure(StoreUnbound) <==> !dbExists
    ensures dbExists && attempt.Success? ==> r == Success(attempt.value)
    ensures dbExists && attempt.Failure? && created.Success? ==> r == Success(created.value)
    ensures dbExists && attempt.Failure? && created.Failure? ==> r == Failure(CreateFailed(created.error))
  {
    var documentStore: Binding<Option<Store>> := if dbExists then Bound(LoadDb(attempt)) else Unbound;
    match documentStore
    case Unbound => Failure(StoreUnbound)
    case Bound(None) =>
      (match created
       case Success(store) => Success(store)
       case Failure(reason) => Failure(CreateFailed(reason)))
    case Bound(Some(store)) => Success(store)
  }

  /** The two query modalities; each names both the query encoder and the document model key. */
  datatype Modality = ImageModality | TextModality

  /** A search query: the path of an image, or a text. */
  datatype Query = ImageQuery(path: Path) | TextQuery(text: string)

  /** The retriever settings that matter to the search: modalities and result count. */
  datatype RetrieverConfig = RetrieverConfig(queryType: Modality, documentModality: Modality, topK: nat)

  /** Both searches ask for the three best matches. */
  const TopK: nat := 3

  /** `get_multimodal_retriever(store, search_type)`: one modality for query and documents. */
  function MultimodalRetriever(searchType: Modality): (r: RetrieverConfig)
  {
    RetrieverConfig(searchType, searchType, TopK)
  }

  /** One search result: a stored document and its similarity score. */
  datatype Hit = Hit(doc: Document, score: real)

  /** A search run: stopped for want of a store, or the retriever used, its query and its results. */
  datatype SearchRun =
    | NoDatabase
    | Searched(retriever: RetrieverConfig, query: Query, hits: seq<Hit>)

  /**
   * `search_with_image`: with no loaded store it stops before building a retriever;
   * otherwise it builds an image retriever and queries it with the image path.
   * `retrieve` stands for the embedding model and the similarity search.
   */
  function SearchWithImage(attempt: LoadAttempt, imagePath: Path, retrieve: (RetrieverConfig, Query, Store) -> seq<Hit>)
    : (r: SearchRun)
    ensures r.NoDatabase? <==> attempt.Failure?
    ensures r.Searched? ==>
      && r.retriever.queryType == ImageModality && r.retriever.documentModality == ImageModality
      && r.retriever.topK == 3
      && r.query == ImageQuery(imagePath)
      && r.hits == retrieve(r.retriever, r.query, attempt.value)
  {
    var store := LoadDb(attempt);
    if store.None? then NoDatabase
    else
      var retriever := MultimodalRetriever(ImageModality);
      var query := ImageQuery(imagePath);
      Searched(retriever, query, retrieve(retriever, query, store.value))
  }

  /**
   * `search_with_text`: with no loaded store it stops before building a retriever;
   * otherwise it builds a text retriever and queries it with the text.
   */
  function SearchWithText(attempt: LoadAttempt, text: string, retrieve: (RetrieverConfig, Query, Store) -> seq<Hit>)
    : (r: SearchRun)
    ensures r.NoDatabase? <==> attempt.Failure?
    ensures r.Searched? ==>
      && r.retriever.queryType == TextModality && r.retriever.documentModality == TextModality
      && r.retriever.topK == 3
      && r.query == TextQuery(text)
      && r.hits == retrieve(r.retriever, r.query, attempt.value)
  {
    var store := LoadDb(attempt);
    if store.None? then NoDatabase
    else
      var retriever := MultimodalRetriever(TextModality);
      var query := TextQuery(text);
      Searched(retriever, query, retrieve(retriever, query, store.value))
  }

  /**
   * A failed load stops both searches the same way, whatever the retrieval would have
   * returned, and a successful one lets both run on the same store.
   */
  lemma SearchGuardsAgree(attempt: LoadAttempt, imagePath: Path, text: string,
                          retrieve: (RetrieverConfig, Query, Store) -> seq<Hit>)
    ensures SearchWithImage(attempt, imagePath, retrieve).NoDatabase? <==> SearchWithText(attempt, text, retrieve).NoDatabase?
    ensures attempt.Failure? ==> SearchWithImage(attempt, imagePath, retrieve) == NoDatabase == SearchWithText(attempt, text, retrieve)
  {
  }

  /**
   * `create_db` and `search_db` read a load the same way: a store `load_db` returns is kept
   * as loaded and the constructor is not consulted; when `load_db` would return `None`,
   * `create_db` goes on with whatever the constructor does.
   */
  lemma OpenAgreesWithLoad(attempt: LoadAttempt, created: CreateAttempt, other: CreateAttempt)
    ensures LoadDb(attempt).Some? ==>
      OpenForCreate(true, attempt, created) == Success(LoadDb(attempt).value) == OpenForCreate(true, attempt, other)
    ensures LoadDb(attempt).None? ==>
      match created
      case Success(store) => OpenForCreate(true, attempt, created) == Success(store)
      case Failure(reason) => OpenForCreate(true, attempt, created) == Failure(CreateFailed(reason))
  {
  }
}
