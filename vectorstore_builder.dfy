/** `VectorStoreBuilder` (src/components/vectorstore_builder.py): choosing the data
    path, checking the API keys, loading and truncating CSV documents, deciding
    whether to create the Pinecone index, and the pipeline that ties them together.
    The file system and the vendor services are inputs: a map from path to what
    loading that path yields, the current index listing, and which vendor calls fail. */
module VectorStoreBuilder {
  import opened Wrappers
  import opened Text

  /** Longest page content kept for embedding. */
  const MaxContentLength: nat := 512

  const AirflowDataPath := "/opt/airflow/artifacts/data_cleaned.csv"
  const LocalDataPath := "artifacts/data_cleaned.csv"
  const DefaultIndexName := "ecommerce-chatbot-project"

  /** The process environment, as `os.getenv` sees it. */
  type Environment = map<string, string>

  // ---------------------------------------------------------------------------
  // Configuration and construction

  /** `VectorStoreBuilderConfig.is_airflow`: `IS_AIRFLOW`, default `"false"`, lower-cased, is `"true"`. */
  predicate IsAirflow(env: Environment)
  {
    AsciiLower(if "IS_AIRFLOW" in env then env["IS_AIRFLOW"] else "false") == "true"
  }

  /** `VectorStoreBuilderConfig.path`. */
  function DataPath(env: Environment): (p: string)
    ensures p == AirflowDataPath || p == LocalDataPath
    ensures p == AirflowDataPath <==> "IS_AIRFLOW" in env && EqualsIgnoringCase(env["IS_AIRFLOW"], "true")
  {
    AsciiLowerEquals(if "IS_AIRFLOW" in env then env["IS_AIRFLOW"] else "false", "true");
    assert !EqualsIgnoringCase("false", "true");
    if IsAirflow(env) then AirflowDataPath else LocalDataPath
  }

  /** A variable that is set to a non-empty value (Python truthiness of `os.getenv`). */
  predicate KeySet(env: Environment, key: string)
  {
    key in env && env[key] != ""
  }

  datatype Builder = Builder(dataPath: string, nvidiaApiKey: string, pineconeApiKey: string)

  datatype ConfigError = MissingApiKeys

  /** `VectorStoreBuilder.__init__`: a `ValueError` unless both API keys are set and non-empty. */
  function NewBuilder(env: Environment): (r: Result<Builder, ConfigError>)
    ensures r.Success? <==> KeySet(env, "NVIDIA_API_KEY") && KeySet(env, "PINECONE_API_KEY")
    ensures r.Success? ==> r.value.dataPath == DataPath(env)
    ensures r.Success? ==> r.value.nvidiaApiKey == env["NVIDIA_API_KEY"] && r.value.pineconeApiKey == env["PINECONE_API_KEY"]
  {
    if !KeySet(env, "NVIDIA_API_KEY") || !KeySet(env, "PINECONE_API_KEY") then Failure(MissingApiKeys)
    else Success(Builder(DataPath(env), env["NVIDIA_API_KEY"], env["PINECONE_API_KEY"]))
  }

  // ---------------------------------------------------------------------------
  // Loading

  /** A LangChain document as the CSV loader produces it. */
  datatype Document = Document(pageContent: string, metadata: map<string, string>)

  /** What loading an existing path yields: the loader raises, or it returns documents. */
  datatype CsvFile = Unparseable | Parsed(docs: seq<Document>)

  /** The files on disk; a path that is not a key does not exist. */
  type FileSystem = map<string, CsvFile>

  /** `doc.page_content[:512]`. */
  function Truncate(d: Document): (t: Document)
    ensures |t.pageContent| == if |d.pageContent| <= MaxContentLength then |d.pageContent| else MaxContentLength
    ensures t.pageContent <= d.pageContent
    ensures t.metadata == d.metadata
  {
    d.(pageContent := if |d.pageContent| <= MaxContentLength then d.pageContent else d.pageContent[..MaxContentLength])
  }

  function TruncateAll(docs: seq<Document>): (r: seq<Document>)
    ensures |r| == |docs|
    ensures forall i :: 0 <= i < |docs| ==> r[i] == Truncate(docs[i])
  {
    seq(|docs|, i requires 0 <= i < |docs| => Truncate(docs[i]))
  }

  /** Documents a single path contributes: none when it is missing or fails to load. */
  function PathDocuments(path: string, fs: FileSystem): seq<Document>
  {
    if path !in fs then []
    else match fs[path]
      case Unparseable => []
      case Parsed(docs) => TruncateAll(docs)
  }

  /** Reference meaning of `load_data`: the per-path documents concatenated in path order. */
  function LoadedDocuments(paths: seq<string>, fs: FileSystem): seq<Document>
    decreases |paths|
  {
    if paths == [] then [] else LoadedDocuments(paths[..|paths| - 1], fs) + PathDocuments(paths[|paths| - 1], fs)
  }

  /** The inner loop of `load_data`: each loaded document is truncated in turn. */
  method TruncateDocuments(loaded: seq<Document>) returns (docs: seq<Document>)
    ensures docs == TruncateAll(loaded)
  {
    docs := loaded;
    for j := 0 to |docs|
      invariant |docs| == |loaded|
      invariant forall k :: 0 <= k < j ==> docs[k] == Truncate(loaded[k])
      invariant forall k :: j <= k < |docs| ==> docs[k] == loaded[k]
    {
      docs := docs[j := Truncate(docs[j])];
    }
  }

  /** `load_data`: walks the paths, skips missing and failing files, truncates each
      loaded document and extends the combined list. */
  method LoadData(paths: seq<string>, fs: FileSystem) returns (allDocs: seq<Document>)
    ensures allDocs == LoadedDocuments(paths, fs)
  {
    allDocs := [];
    for i := 0 to |paths|
      invariant allDocs == LoadedDocuments(paths[..i], fs)
    {
      var path := paths[i];
      ghost var before := allDocs;
      if path in fs && fs[path].Parsed? {
        var docs := TruncateDocuments(fs[path].docs);
        allDocs := allDocs + docs;
      }
      assert allDocs == before + PathDocuments(path, fs);
      assert paths[..i + 1][..i] == paths[..i];
    }
    assert paths[..|paths|] == paths;
  }

  /** No returned document is longer than 512 characters. */
  lemma {:induction false} LoadedDocumentsBounded(paths: seq<string>, fs: FileSystem)
    ensures forall d :: d in LoadedDocuments(paths, fs) ==> |d.pageContent| <= MaxContentLength
    decreases |paths|
  {
    if paths != [] {
      LoadedDocumentsBounded(paths[..|paths| - 1], fs);
    }
  }

  /** Loading a concatenation of path lists is the concatenation of the loads. */
  lemma {:induction false} LoadedDocumentsAppend(a: seq<string>, b: seq<string>, fs: FileSystem)
    ensures LoadedDocuments(a + b, fs) == LoadedDocuments(a, fs) + LoadedDocuments(b, fs)
    decreases |b|
  {
    if b == [] {
      assert a + b == a;
    } else {
      var last := b[|b| - 1];
      assert (a + b)[..|a + b| - 1] == a + b[..|b| - 1];
      LoadedDocumentsAppend(a, b[..|b| - 1], fs);
    }
  }

  /** A missing or failing path contributes nothing and the paths after it are still loaded. */
  lemma {:induction false} SkippedPathContributesNothing(before: seq<string>, path: string, after: seq<string>, fs: FileSystem)
    requires path !in fs || fs[path] == Unparseable
    ensures LoadedDocuments(before + [path] + after, fs) == LoadedDocuments(before, fs) + LoadedDocuments(after, fs)
  {
    LoadedDocumentsAppend(before + [path], after, fs);
    assert (before + [path])[..|before + [path]| - 1] == before;
  }

  /** Truncating the loaded documents again changes nothing. */
  lemma {:induction false} TruncationIsStable(paths: seq<string>, fs: FileSystem)
    ensures TruncateAll(LoadedDocuments(paths, fs)) == LoadedDocuments(paths, fs)
  {
    var docs := LoadedDocuments(paths, fs);
    LoadedDocumentsBounded(paths, fs);
    forall i | 0 <= i < |docs|
      ensures Truncate(docs[i]) == docs[i]
    {
      assert docs[i] in docs;
    }
  }

  // ---------------------------------------------------------------------------
  // Index creation

  /** An entry of `pc.list_indexes()`. */
  datatype IndexDescription = IndexDescription(name: string, dimension: nat)

  datatype IndexSpec = IndexSpec(name: string, dimension: nat, metric: string, cloud: string, region: string)

  datatype IndexAction = CreateIndex(spec: IndexSpec) | SkipCreation

  /** The index-exists branch of `create_vector_store`. */
  function PlanIndex(indexes: seq<IndexDescription>, name: string): (a: IndexAction)
    ensures a.CreateIndex? <==> forall i :: 0 <= i < |indexes| ==> indexes[i].name != name
    ensures a.CreateIndex? ==> a.spec == IndexSpec(name, 4096, "cosine", "aws", "us-east-1")
  {
    var existing := seq(|indexes|, i requires 0 <= i < |indexes| => indexes[i].name);
    assert forall i :: 0 <= i < |indexes| ==> existing[i] == indexes[i].name;
    if name !in existing then CreateIndex(IndexSpec(name, 4096, "cosine", "aws", "us-east-1")) else SkipCreation
  }

  /** The listing after the decision, assuming a requested index then appears in it. */
  function IndexesAfter(indexes: seq<IndexDescription>, name: string): seq<IndexDescription>
  {
    match PlanIndex(indexes, name)
    case CreateIndex(spec) => indexes + [IndexDescription(spec.name, spec.dimension)]
    case SkipCreation => indexes
  }

  /** Running the decision a second time skips creation and leaves the listing as it was. */
  lemma {:induction false} IndexCreationIdempotent(indexes: seq<IndexDescription>, name: string)
    ensures PlanIndex(IndexesAfter(indexes, name), name) == SkipCreation
    ensures IndexesAfter(IndexesAfter(indexes, name), name) == IndexesAfter(indexes, name)
  {
    var after := IndexesAfter(indexes, name);
    assert exists i :: 0 <= i < |after| && after[i].name == name by {
      if PlanIndex(indexes, name).CreateIndex? {
        assert after[|indexes|].name == name;
      } else {
        var i :| 0 <= i < |indexes| && indexes[i].name == name;
        assert after[i].name == name;
      }
    }
  }

  // ---------------------------------------------------------------------------
  // Pipeline

  /** The vendor calls the pipeline makes. Building the embeddings client, then
      for the store: the Pinecone client, the index listing, the index creation,
      the index handle, the statistics before the upload, the upload, and the
      statistics after it. */
  datatype VendorCall =
    | Embeddings
    | Connect
    | ListIndexes
    | IndexCreation
    | OpenIndex
    | StatsBefore
    | Upload
    | StatsAfter

  /** Which vendor calls raise. */
  datatype VendorOutcomes = VendorOutcomes(failing: set<VendorCall>)

  /** `Custom_exception` wrapping the error of a vendor call. */
  datatype PipelineError = CallFailed(call: VendorCall) | Wrapped(inner: PipelineError)

  /** The vector store built: its index and the documents uploaded to it. */
  datatype VectorStore = VectorStore(indexName: string, documents: seq<Document>)

  /** The calls `create_vector_store` makes, in order; the index is created only
      when the listing lacks it. */
  function StoreCalls(indexes: seq<IndexDescription>, name: string): (calls: seq<VendorCall>)
    ensures IndexCreation in calls <==> PlanIndex(indexes, name).CreateIndex?
    ensures Upload in calls && Embeddings !in calls
  {
    var creation := if PlanIndex(indexes, name).CreateIndex? then [IndexCreation] else [];
    var calls := [Connect, ListIndexes] + creation + [OpenIndex, StatsBefore, Upload, StatsAfter];
    assert calls[|calls| - 2] == Upload;
    calls
  }

  /** Position of the first call from `i` on that raises. */
  function FirstFailure(calls: seq<VendorCall>, vendor: VendorOutcomes, i: nat): (r: Option<nat>)
    requires i <= |calls|
    ensures r.None? <==> forall k :: i <= k < |calls| ==> calls[k] !in vendor.failing
    ensures r.Some? ==> i <= r.value < |calls| && calls[r.value] in vendor.failing
    ensures r.Some? ==> forall k :: i <= k < r.value ==> calls[k] !in vendor.failing
    decreases |calls| - i
  {
    if i == |calls| then None
    else if calls[i] in vendor.failing then Some(i)
    else FirstFailure(calls, vendor, i + 1)
  }

  /** `create_vector_store`: the calls run in order and the first that raises is
      re-raised wrapped; when none raises, the store holds the documents. */
  function CreateVectorStore(documents: seq<Document>, indexes: seq<IndexDescription>, name: string, vendor: VendorOutcomes)
    : (r: Result<VectorStore, PipelineError>)
    ensures r.Success? <==> forall c :: c in StoreCalls(indexes, name) ==> c !in vendor.failing
    ensures r.Success? ==> r.value == VectorStore(name, documents)
    ensures r.Failure? ==> var calls := StoreCalls(indexes, name);
      exists k :: 0 <= k < |calls| && calls[k] in vendor.failing && r.error == Wrapped(CallFailed(calls[k]))
        && forall j :: 0 <= j < k ==> calls[j] !in vendor.failing
  {
    var calls := StoreCalls(indexes, name);
    match FirstFailure(calls, vendor, 0)
    case Some(k) => Failure(Wrapped(CallFailed(calls[k])))
    case None => Success(VectorStore(name, documents))
  }

  /** A failing index creation matters only when the index is missing. */
  lemma {:induction false} ExistingIndexSkipsCreation(documents: seq<Document>, indexes: seq<IndexDescription>, name: string, failing: set<VendorCall>)
    requires exists i :: 0 <= i < |indexes| && indexes[i].name == name
    ensures CreateVectorStore(documents, indexes, name, VendorOutcomes(failing + {IndexCreation}))
      == CreateVectorStore(documents, indexes, name, VendorOutcomes(failing))
  {
    var calls := StoreCalls(indexes, name);
    var v1, v2 := VendorOutcomes(failing + {IndexCreation}), VendorOutcomes(failing);
    assert IndexCreation !in calls;
    SameFirstFailure(calls, v1, v2, 0);
  }

  /** Outcomes that agree on the calls made find the same first failure. */
  lemma {:induction false} SameFirstFailure(calls: seq<VendorCall>, v1: VendorOutcomes, v2: VendorOutcomes, i: nat)
    requires i <= |calls|
    requires forall k :: i <= k < |calls| ==> (calls[k] in v1.failing <==> calls[k] in v2.failing)
    ensures FirstFailure(calls, v1, i) == FirstFailure(calls, v2, i)
    decreases |calls| - i
  {
    if i < |calls| {
      SameFirstFailure(calls, v1, v2, i + 1);
    }
  }

  /** The statistics read after the upload is the last call: when it alone
      raises, the upload has happened but the builder still reports failure. */
  lemma {:induction false} LateStatsFailureFails(documents: seq<Document>, indexes: seq<IndexDescription>, name: string)
    ensures CreateVectorStore(documents, indexes, name, VendorOutcomes({StatsAfter}))
      == Failure(Wrapped(CallFailed(StatsAfter)))
  {
    var calls := StoreCalls(indexes, name);
    var v := VendorOutcomes({StatsAfter});
    var k := |calls| - 1;
    assert calls[k] == StatsAfter;
    assert forall j :: 0 <= j < k ==> calls[j] != StatsAfter;
    FirstFailureIs(calls, v, 0, k);
  }

  /** The first failure is at `k` when `k` fails and nothing from `i` before it does. */
  lemma {:induction false} FirstFailureIs(calls: seq<VendorCall>, vendor: VendorOutcomes, i: nat, k: nat)
    requires i <= k < |calls| && calls[k] in vendor.failing
    requires forall j :: i <= j < k ==> calls[j] !in vendor.failing
    ensures FirstFailure(calls, vendor, i) == Some(k)
    decreases k - i
  {
    if i < k {
      FirstFailureIs(calls, vendor, i + 1, k);
    }
  }

  /** `run_pipeline`: loads the single configured path, builds the embeddings,
      then the vector store under the default index name. */
  function RunPipeline(builder: Builder, fs: FileSystem, indexes: seq<IndexDescription>, vendor: VendorOutcomes)
    : (r: Result<VectorStore, PipelineError>)
    ensures r.Success? <==> Embeddings !in vendor.failing && CreateVectorStore([], indexes, DefaultIndexName, vendor).Success?
    ensures Embeddings in vendor.failing ==> r == Failure(Wrapped(Wrapped(CallFailed(Embeddings))))
    ensures r.Success? ==> r.value.indexName == DefaultIndexName
    ensures r.Success? ==> r.value.documents == PathDocuments(builder.dataPath, fs)
  {
    var docs := LoadedDocuments([builder.dataPath], fs);
    assert [builder.dataPath][..0] == [];
    assert docs == LoadedDocuments([], fs) + PathDocuments(builder.dataPath, fs);
    if Embeddings in vendor.failing then Failure(Wrapped(Wrapped(CallFailed(Embeddings))))
    else match CreateVectorStore(docs, indexes, DefaultIndexName, vendor)
      case Failure(e) => Failure(Wrapped(e))
      case Success(store) => Success(store)
  }
}
