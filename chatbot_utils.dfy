/** The per-session chat history table of `BuildChatbot` (src/utils/chatbot_utils.py).
    A session id maps to one in-memory message history object; asking for an id
    that is not yet present creates an empty history for it. */
module SessionStore {

  datatype Role = Human | Ai

  /** One message of a conversation transcript. */
  datatype Message = Message(role: Role, text: string)

  /** The in-memory message history object kept per session. How the chat
      runnable appends to it belongs to the library and is not modelled. */
  class ChatHistory {
    var messages: seq<Message>

    constructor ()
      ensures messages == []
    {
      messages := [];
    }
  }

  /** Result of a get-or-create lookup on the value view of the store. */
  datatype Lookup = Lookup(sessions: map<string, seq<Message>>, history: seq<Message>)

  /** Get-or-create on transcripts: the value-level meaning of `get_session_id`. */
  function GetOrCreate(sessions: map<string, seq<Message>>, id: string): (r: Lookup)
    ensures r.sessions.Keys == sessions.Keys + {id}
    ensures forall k :: k in sessions ==> r.sessions[k] == sessions[k]
    ensures id in r.sessions && r.history == r.sessions[id]
    ensures id !in sessions ==> r.history == []
  {
    if id in sessions then Lookup(sessions, sessions[id]) else Lookup(sessions[id := []], [])
  }

  /** Asking for the same id a second time changes nothing and returns the same history. */
  lemma {:induction false} GetOrCreateIdempotent(sessions: map<string, seq<Message>>, id: string)
    ensures GetOrCreate(GetOrCreate(sessions, id).sessions, id) == GetOrCreate(sessions, id)
  {
  }

  /** The store after a sequence of lookups, in call order. */
  function AfterLookups(sessions: map<string, seq<Message>>, ids: seq<string>): map<string, seq<Message>>
    decreases |ids|
  {
    if ids == [] then sessions else AfterLookups(GetOrCreate(sessions, ids[0]).sessions, ids[1..])
  }

  /** Over any sequence of lookups the key set only grows, by exactly the ids asked
      for, and every transcript that was present is untouched. */
  lemma {:induction false} LookupsOnlyAdd(sessions: map<string, seq<Message>>, ids: seq<string>)
    ensures AfterLookups(sessions, ids).Keys == sessions.Keys + set i | 0 <= i < |ids| :: ids[i]
    ensures forall k :: k in sessions ==> AfterLookups(sessions, ids)[k] == sessions[k]
    ensures forall k :: k in AfterLookups(sessions, ids) && k !in sessions ==> AfterLookups(sessions, ids)[k] == []
    decreases |ids|
  {
    if ids != [] {
      var next := GetOrCreate(sessions, ids[0]).sessions;
      LookupsOnlyAdd(next, ids[1..]);
      assert (set i | 0 <= i < |ids| :: ids[i]) == {ids[0]} + set i | 0 <= i < |ids[1..]| :: ids[1..][i] by {
        forall i | 0 <= i < |ids|
          ensures ids[i] in {ids[0]} + set i | 0 <= i < |ids[1..]| :: ids[1..][i]
        {
          if i > 0 {
            assert ids[1..][i - 1] == ids[i];
          }
        }
      }
    }
  }

  /** `BuildChatbot`: owns the table from session id to history object. */
  class Chatbot {
    var store: map<string, ChatHistory>

    /** Distinct session ids never share a history object. */
    ghost predicate Valid()
      reads this
    {
      forall a, b :: a in store && b in store && a != b ==> store[a] != store[b]
    }

    /** The transcripts currently held, per session id. */
    ghost function Histories(): map<string, seq<Message>>
      reads this, store.Values
    {
      map id | id in store :: store[id].messages
    }

    /** `__init__`: the store starts empty. */
    constructor ()
      ensures Valid() && store == map[]
    {
      store := map[];
    }

    /** `get_session_id`: returns the history object of `id`, creating and
        registering an empty one when `id` is unseen. */
    method GetSessionId(id: string) returns (h: ChatHistory)
      requires Valid()
      modifies this
      ensures Valid()
      ensures id in old(store) ==> store == old(store) && h == old(store)[id]
      ensures id !in old(store) ==> fresh(h) && store == old(store)[id := h]
      ensures Histories() == GetOrCreate(old(Histories()), id).sessions
      ensures h.messages == GetOrCreate(old(Histories()), id).history
    {
      if id !in store {
        var created := new ChatHistory();
        store := store[id := created];
      }
      h := store[id];
    }
  }
}

/** The fixed wiring of `BuildRetrievalchain` and `BuildChatbot.initialize_chatbot`
    (src/utils/chatbot_utils.py): which vendor objects are built, in which order,
    with which constants, and how a failure of any step is reported. The vendor
    objects themselves are configuration records here. */
module RetrievalChain {
  import opened Wrappers
  import opened Text

  /** The construction steps of `build_retrieval_chain`. */
  datatype Step = LoadEmbeddings | LoadLlm | SetupPrompt | LoadVectorStore | BuildRetriever | BuildChains

  const BuildOrder: seq<Step> := [LoadEmbeddings, LoadLlm, SetupPrompt, LoadVectorStore, BuildRetriever, BuildChains]

  /** One entry of the chat prompt template. */
  datatype PromptMessage =
    | SystemMessage(template: string)
    | HistoryPlaceholder(variableName: string)
    | HumanMessage(template: string)

  datatype EmbeddingsConfig = EmbeddingsConfig(model: string, truncate: string)
  datatype LlmConfig = LlmConfig(model: string, temperature: real, maxTokens: nat)
  datatype VectorStoreConfig = VectorStoreConfig(indexName: string, embeddings: EmbeddingsConfig)
  datatype RetrieverConfig = RetrieverConfig(store: VectorStoreConfig, searchType: string, k: nat, scoreThreshold: real)
  datatype ChainConfig = ChainConfig(llm: LlmConfig, prompt: seq<PromptMessage>, documentVariable: string, retriever: RetrieverConfig)

  /** The chain wrapped with per-session history (`RunnableWithMessageHistory`). */
  datatype ChatbotConfig = ChatbotConfig(chain: ChainConfig, inputKey: string, historyKey: string, outputKey: string)

  /** `Custom_exception` wrapping the error raised by a step. */
  datatype BuildError = StepFailed(step: Step) | Wrapped(inner: BuildError)

  /** The first line of the system instructions; the remaining instruction lines
      are prose for the model and are not reproduced. */
  const Instructions: string := "You are a knowledgeable and friendly personal assistant for an e-commerce store."
  const SystemTemplate: string := Instructions + "\nCurrent context about our products and inventory:\n{context}\n"

  const Embeddings := EmbeddingsConfig("nvidia/nv-embedqa-mistral-7b-v2", "NONE")
  const Llm := LlmConfig("llama-3.3-70b-versatile", 0.6, 4096)
  const IndexName := "ecommerce-chatbot-project"

  /** `setup_prompt`: system text with the `{context}` slot, then the history
      placeholder, then the human turn. */
  function Prompt(): (p: seq<PromptMessage>)
    ensures |p| == 3
    ensures p[0].SystemMessage? && Contains(p[0].template, "{context}")
    ensures p[1] == HistoryPlaceholder("chat_history")
    ensures p[2] == HumanMessage("{input}")
  {
    var i := |SystemTemplate| - 10;
    assert OccursAt(SystemTemplate, "{context}", i);
    [SystemMessage(SystemTemplate), HistoryPlaceholder("chat_history"), HumanMessage("{input}")]
  }

  /** `build_retriever` over the vector store of `load_vectorstore`. */
  function Retriever(): (r: RetrieverConfig)
    ensures r.searchType == "similarity_score_threshold" && r.k == 5 && r.scoreThreshold == 0.5
    ensures r.store == VectorStoreConfig(IndexName, Embeddings)
  {
    RetrieverConfig(VectorStoreConfig(IndexName, Embeddings), "similarity_score_threshold", 5, 0.5)
  }

  /** The first step of `order` that fails, as an index into `order`. */
  function FirstFailure(order: seq<Step>, fails: Step -> bool): (r: Option<nat>)
    ensures r.Some? ==> r.value < |order| && fails(order[r.value])
    ensures r.Some? ==> forall j :: 0 <= j < r.value ==> !fails(order[j])
    ensures r.None? <==> forall j :: 0 <= j < |order| ==> !fails(order[j])
    decreases |order|
  {
    if order == [] then None
    else if fails(order[0]) then Some(0)
    else match FirstFailure(order[1..], fails)
      case None => None
      case Some(i) => Some(i + 1)
  }

  /** Every construction step is part of the build order, so the build runs
      without failure exactly when no step fails. */
  lemma {:induction false} EveryStepIsBuilt(fails: Step -> bool)
    ensures (forall j :: 0 <= j < |BuildOrder| ==> !fails(BuildOrder[j])) <==> forall s :: !fails(s)
  {
    if forall j :: 0 <= j < |BuildOrder| ==> !fails(BuildOrder[j]) {
      forall s
        ensures !fails(s)
      {
        var j := match s
          case LoadEmbeddings => 0
          case LoadLlm => 1
          case SetupPrompt => 2
          case LoadVectorStore => 3
          case BuildRetriever => 4
          case BuildChains => 5;
        assert BuildOrder[j] == s;
      }
    }
  }

  /** Step `i` of the build order fails and every step before it succeeded. */
  predicate StoppedAt(fails: Step -> bool, i: nat)
    requires i < |BuildOrder|
  {
    fails(BuildOrder[i]) && forall j :: 0 <= j < i ==> !fails(BuildOrder[j])
  }

  /** `build_retrieval_chain`: the steps run in `BuildOrder`; `fails` says which
      vendor calls raise. The first failing step stops the build, its error
      wrapped by the step and again by `build_retrieval_chain`. */
  function BuildRetrievalChain(fails: Step -> bool): (r: Result<ChainConfig, BuildError>)
    ensures r.Success? <==> forall s :: !fails(s)
    ensures r.Failure? ==>
              exists i :: 0 <= i < |BuildOrder| && StoppedAt(fails, i) && r.error == Wrapped(Wrapped(StepFailed(BuildOrder[i])))
    ensures r.Success? ==> r.value.retriever == Retriever() && r.value.prompt == Prompt()
    ensures r.Success? ==> r.value.llm == Llm && r.value.documentVariable == "context"
  {
    match FirstFailure(BuildOrder, fails)
    case Some(i) =>
      Failure(Wrapped(Wrapped(StepFailed(BuildOrder[i]))))
    case None =>
      EveryStepIsBuilt(fails);
      Success(ChainConfig(Llm, Prompt(), "context", Retriever()))
  }

  /** `initialize_chatbot`: the chain wrapped with session history. The history
      key is the prompt placeholder's variable, the input key the human slot's. */
  function InitializeChatbot(fails: Step -> bool): (r: Result<ChatbotConfig, BuildError>)
    ensures r.Success? <==> forall s :: !fails(s)
    ensures r.Failure? ==> r.error == BuildRetrievalChain(fails).error
    ensures r.Success? ==> r.value.chain == BuildRetrievalChain(fails).value
    ensures r.Success? ==> r.value.chain.prompt[1] == HistoryPlaceholder(r.value.historyKey)
    ensures r.Success? ==> r.value.chain.prompt[2] == HumanMessage("{" + r.value.inputKey + "}")
    ensures r.Success? ==> r.value.outputKey == "answer"
  {
    match BuildRetrievalChain(fails)
    case Failure(e) => Failure(e)
    case Success(chain) => Success(ChatbotConfig(chain, "input", "chat_history", "answer"))
  }
}
