# E-commerce chatbot core, modelled in Dafny

This project models the logic of the AI-powered e-commerce chatbot: a Flask app whose answers come from a
retrieval chain over a Pinecone vector store of product data. It covers the parts of that system that have
logic of their own:

- **Session store and chain wiring** (`src/utils/chatbot_utils.py`). `BuildChatbot` keeps one in-memory
  history per session id and creates it on first use. `BuildRetrievalchain` builds embeddings, LLM, prompt,
  vector store, retriever and chains in a fixed order with fixed constants, and wraps the first failure.
  Modules `SessionStore` (the store is a class with a map field) and `RetrievalChain`.
- **Vector store builder** (`src/components/vectorstore_builder.py`). The module covers:
  - the Airflow/local data path choice;
  - the API key check;
  - `load_data`, which skips missing or failing files and truncates every document to 512 characters;
  - the create-index-only-if-absent decision;
  - `run_pipeline`.

  Module `VectorStoreBuilder`.
- **Price conversion scripts** (`convert_prices_to_gbp.py`, `convert_cleaned_prices_to_gbp.py`). The module
  covers:
  - `inr_to_gbp`: the empty and `NA` guards, the leftmost match of `[\d,]+(?:\.\d+)?` after removing `₹`,
    comma removal, and the `£{x:,.2f}` format;
  - price-column selection by header;
  - the row loop that rewrites price cells in place;
  - each script's read-convert-write of its files.

  Module `PriceConversion` holds the shared logic. `ConvertPrices` and `ConvertCleanedPrices` hold one
  script each.
- **Amazon Q&A cleaning** (`src/components/process_amazon_qa.py`). It covers:
  - the question dictionary, where the last write wins;
  - the answer join with its truthiness and null filters, written under a header;
  - the appended single-file pairs with their `question`/`Question` column fallback.

  Module `AmazonQa`.
- **Requirements list** (`setup.py`). `get_requirements` strips every line in place and removes the first
  `-e .`. Module `Requirements`.
- **Chat widget** (`static/js/chatbot.js`). It covers:
  - the trimmed-input guard;
  - `\n` to `<br>` for bot messages;
  - the invoice reformat: the 29-hyphen rule becomes 35 box-drawing characters, space runs collapse, and
    the text is trimmed;
  - `min(scrollHeight, 120)`;
  - the fixed apology on any failure.

  Module `ChatClient`, with the widget state as a class.

Shared pieces are `Wrappers` (`Option`, `Result`) and `Text`. `Text` holds Python `str.strip` and JavaScript
`trim` with their own whitespace sets, substring search, global literal replacement, single-character
removal and ASCII case folding.

Vendor calls, the file system, the network, the layout engine and float arithmetic are parameters:
- the steps or calls that raise are passed in;
- files are maps from path to content, where an absent path does not exist;
- `toPence` maps the comma-free price literal to the rounded number of pence. The table and file layers
  take the cell conversion as a parameter, and the scripts pass `Converter(toPence)`, which is `InrToGbp`;
- the needed height of the text area is an argument.

## Model

| member | source | states |
|---|---|---|
| Text.SkipForward | setup.py:15 | leading whitespace ends at the first character that is not whitespace |
| Text.SkipBackward | setup.py:15 | trailing whitespace starts just after the last character that is not whitespace |
| Text.Strip | setup.py:15 | stripping leaves no whitespace at either end and never lengthens the text |
| Text.StripUnique | setup.py:15 | a slice that starts and ends with non-whitespace and has only whitespace around it is exactly the stripped text |
| Text.StripEmptyIff | static/js/chatbot.js:70-71 | the stripped text is empty exactly when every character is whitespace |
| Text.StripIdempotent | setup.py:15 | stripping twice equals stripping once |
| Text.StripIsSlice | setup.py:15 | the stripped text is a slice of the input with only whitespace before and after it |
| Text.ReplaceAll | static/js/chatbot.js:48 | a global replacement of a literal pattern, scanning left to right; its meaning is stated by the three rows below |
| Text.ReplaceAllFirst | static/js/chatbot.js:48 | up to the first occurrence of the pattern the text is copied, that occurrence becomes the replacement, and the replacement goes on after it |
| Text.ReplaceAllRemovesPattern | static/js/chatbot.js:48 | after a global replacement by text sharing no character with the pattern, the pattern does not occur |
| Text.ReplaceAllAbsent | static/js/chatbot.js:48 | text without the pattern is left unchanged by a global replacement |
| Text.AsciiLower | convert_prices_to_gbp.py:20 | lower-casing keeps the length, turns each of A-Z into its lower-case letter and keeps every other character |
| Text.AsciiLowerEquals | src/components/vectorstore_builder.py:22 | lower-casing equals a lower-case word exactly when the text spells it in any letter case |
| Text.Without | convert_prices_to_gbp.py:22 | removing a character leaves no occurrence of it and never lengthens the text |
| SessionStore.GetOrCreate | src/utils/chatbot_utils.py:188-192 | the keys become the old keys plus the id; existing histories are untouched; the history returned is the stored one, and empty for an unseen id |
| SessionStore.GetOrCreateIdempotent | src/utils/chatbot_utils.py:188-192 | asking twice for the same id changes nothing more and returns the same history |
| SessionStore.LookupsOnlyAdd | src/utils/chatbot_utils.py:188-192 | over any sequence of lookups the keys grow by exactly the ids asked for, existing histories stay as they were and new ones are empty |
| SessionStore.ChatHistory.constructor | src/utils/chatbot_utils.py:191 | a new history holds no messages |
| SessionStore.Chatbot.constructor | src/utils/chatbot_utils.py:184-185 | the store starts empty |
| SessionStore.Chatbot.GetSessionId | src/utils/chatbot_utils.py:188-192 | a known id returns its own object without changing the store; an unseen id gets one fresh object; distinct ids never share an object; the transcripts follow `GetOrCreate` |
| RetrievalChain.Prompt | src/utils/chatbot_utils.py:64-117 | the prompt is the system text with the `{context}` slot, the `chat_history` placeholder, and the human `{input}` turn, in that order |
| RetrievalChain.Retriever | src/utils/chatbot_utils.py:133-142 | the retriever searches by score threshold with k = 5 and threshold 0.5 over the named index with the configured embeddings |
| RetrievalChain.FirstFailure | src/utils/chatbot_utils.py:167-178 | the index found is a failing step with no failing step before it, and there is none exactly when no step in the order fails |
| RetrievalChain.EveryStepIsBuilt | src/utils/chatbot_utils.py:167-178 | every construction step is in the build order |
| RetrievalChain.BuildRetrievalChain | src/utils/chatbot_utils.py:167-178 | the build succeeds exactly when no step fails; otherwise it reports the first failing step, wrapped twice; on success it carries the LLM (0.6, 4096 tokens), prompt, `context` variable and retriever |
| RetrievalChain.InitializeChatbot | src/utils/chatbot_utils.py:195-206 | succeeds exactly when the chain builds, and passes on the chain's error otherwise; the history key is the prompt placeholder's variable, the input key the human slot's, and the output key `answer` |
| VectorStoreBuilder.IsAirflow | src/components/vectorstore_builder.py:22 | `IS_AIRFLOW`, `false` when unset, lower-cased, equals `true`; its meaning is stated by `DataPath` |
| VectorStoreBuilder.DataPath | src/components/vectorstore_builder.py:20-28 | the Airflow path is chosen exactly when `IS_AIRFLOW` is set to `true` in any letter case, and the local path otherwise |
| VectorStoreBuilder.NewBuilder | src/components/vectorstore_builder.py:37-44 | construction succeeds exactly when both API keys are set and non-empty, and keeps them and the configured path |
| VectorStoreBuilder.Truncate | src/components/vectorstore_builder.py:70-72 | the content becomes its prefix of at most 512 characters, and the metadata is kept |
| VectorStoreBuilder.TruncateAll | src/components/vectorstore_builder.py:70-72 | every document of a file is truncated, in order |
| VectorStoreBuilder.TruncateDocuments | src/components/vectorstore_builder.py:70-72 | the loop over a file's documents truncates each of them, in order |
| VectorStoreBuilder.PathDocuments | src/components/vectorstore_builder.py:58-76 | the truncated documents of one path, or none when the path is missing or fails to load; specified through `LoadData` and the lemmas below |
| VectorStoreBuilder.LoadedDocuments | src/components/vectorstore_builder.py:55-80 | the documents of each path in turn, concatenated; specified through `LoadData` and the lemmas below |
| VectorStoreBuilder.LoadData | src/components/vectorstore_builder.py:50-83 | the documents returned are the truncated documents of each existing, loadable path, concatenated in path order |
| VectorStoreBuilder.LoadedDocumentsBounded | src/components/vectorstore_builder.py:69-72 | no returned document has more than 512 characters |
| VectorStoreBuilder.LoadedDocumentsAppend | src/components/vectorstore_builder.py:56-76 | loading two path lists one after the other gives the concatenation of their loads |
| VectorStoreBuilder.SkippedPathContributesNothing | src/components/vectorstore_builder.py:56-80 | a missing or failing path adds nothing, and the paths after it are still loaded |
| VectorStoreBuilder.TruncationIsStable | src/components/vectorstore_builder.py:70-72 | truncating the loaded documents again changes nothing |
| VectorStoreBuilder.PlanIndex | src/components/vectorstore_builder.py:113-127 | an index is created exactly when no listed index has the name, with dimension 4096, cosine metric, on aws us-east-1 |
| VectorStoreBuilder.IndexCreationIdempotent | src/components/vectorstore_builder.py:113-127 | after the decision has been carried out, running it again skips creation and changes nothing |
| VectorStoreBuilder.StoreCalls | src/components/vectorstore_builder.py:111-142 | the Pinecone calls are the client, the listing, the creation only when the index is missing, the index handle, the statistics before, the upload and the statistics after |
| VectorStoreBuilder.FirstFailure | src/components/vectorstore_builder.py:105-149 | the position found is a failing call with no failing call before it, and there is none exactly when no call fails |
| VectorStoreBuilder.CreateVectorStore | src/components/vectorstore_builder.py:105-149 | succeeds exactly when none of the calls it makes raises, and then holds the given documents under the name; otherwise it reports, wrapped once, a failing call with no failing call before it |
| VectorStoreBuilder.ExistingIndexSkipsCreation | src/components/vectorstore_builder.py:114-127 | when the index is listed, a failing index creation changes nothing, because creation is not attempted |
| VectorStoreBuilder.LateStatsFailureFails | src/components/vectorstore_builder.py:142-149 | when only the statistics after the upload raise, the whole call fails with that error |
| VectorStoreBuilder.RunPipeline | src/components/vectorstore_builder.py:154-169 | succeeds exactly when the embeddings and the store are built; a failing embeddings call is reported wrapped twice; the store is the default index holding the truncated documents of the configured path |
| PriceConversion.NatToDigits | convert_prices_to_gbp.py:27 | the digits of a number are non-empty, decimal and without a leading zero |
| PriceConversion.GroupThousands | convert_prices_to_gbp.py:27 | the `,` grouping of the pounds; its meaning is stated by `GroupThousandsShape` and `UngroupThousands` |
| PriceConversion.DigitsRoundTrip | convert_prices_to_gbp.py:27 | reading back the digits of a number gives the number |
| PriceConversion.GroupThousandsShape | convert_prices_to_gbp.py:27 | thousands grouping puts a comma exactly at every fourth place from the right and digits elsewhere |
| PriceConversion.UngroupThousands | convert_prices_to_gbp.py:27 | removing the commas of the grouping gives back the digits |
| PriceConversion.Cents | convert_prices_to_gbp.py:27 | the pence are written as exactly two digits |
| PriceConversion.CentsValue | convert_prices_to_gbp.py:27 | the two pence digits read back as the pence |
| PriceConversion.FormatPounds | convert_prices_to_gbp.py:27 | the output starts with `£` and ends with a point and two digits |
| PriceConversion.FormatPoundsRoundTrip | convert_prices_to_gbp.py:27 | parsing `£<grouped>.<two digits>` back gives exactly the amount formatted |
| PriceConversion.RunEnd | convert_prices_to_gbp.py:16 | the run from a position takes every accepted character and ends at the first one that is not accepted |
| PriceConversion.FindFrom | convert_prices_to_gbp.py:22 | the index found is the first accepted character at or after the start, and there is none exactly when no character there is accepted |
| PriceConversion.FractionEnd | convert_prices_to_gbp.py:16 | the optional `\.\d+` group is taken, greedily, exactly when a point followed by a digit comes next |
| PriceConversion.FirstPriceMatch | convert_prices_to_gbp.py:22 | there is no match exactly when the text has no digit or comma |
| PriceConversion.LeftmostFromBounds | convert_prices_to_gbp.py:16-22 | the text between the first run character, the end of its run and the end of an optional fraction is a leftmost greedy match |
| PriceConversion.FirstPriceMatchIsLeftmost | convert_prices_to_gbp.py:16-22 | the match found is the leftmost one, with the digit-and-comma run and the fraction each taken greedily |
| PriceConversion.LeftmostStart | convert_prices_to_gbp.py:22 | a leftmost match starts at the first digit or comma |
| PriceConversion.LeftmostRunEnd | convert_prices_to_gbp.py:16 | the digit-and-comma run of a leftmost match ends where the search for its end stops |
| PriceConversion.LeftmostFractionEnd | convert_prices_to_gbp.py:16 | the fraction of a leftmost match ends where the search for its end stops, and is empty when none follows |
| PriceConversion.LeftmostUnique | convert_prices_to_gbp.py:16-22 | a leftmost greedy match is the match found, so there is only one |
| PriceConversion.FirstPriceMatchIffLeftmost | convert_prices_to_gbp.py:16-22 | the search returns a match exactly when it is the leftmost greedy match of the text |
| PriceConversion.InrToGbp | convert_prices_to_gbp.py:19-27 | empty, `NA` (any case) and number-free inputs are returned unchanged; the conversion raises exactly when the first match is only commas |
| PriceConversion.IsNa | convert_prices_to_gbp.py:20 | the lower-cased text is `na`; `Text.AsciiLowerEquals` states that this means `na` in any letter case |
| PriceConversion.ConvertedPriceShape | convert_prices_to_gbp.py:22-27 | a converted price is `£`, grouped pounds, a point and two digits, and reads back as the pence of the comma-free literal |
| PriceConversion.ConvertsFirstMatch | convert_prices_to_gbp.py:20-27 | a non-empty, non-`NA` price whose `₹`-free text has a given leftmost greedy match converts that match's comma-free literal, and raises when the literal is empty |
| PriceConversion.RupeeIsNotNa | convert_prices_to_gbp.py:20 | a text starting with `₹` is never taken for `NA` |
| PriceConversion.SameLiteralSameResult | convert_prices_to_gbp.py:22-27 | only the comma-free text of the first match decides the result: inputs whose first matches read the same convert identically |
| PriceConversion.WholeRunMatch | convert_prices_to_gbp.py:16 | text made only of digits and commas is matched whole, without a fraction |
| PriceConversion.RupeeRunConverts | convert_prices_to_gbp.py:22-27 | `₹` followed by digits and commas converts that run with its commas removed, and raises when nothing remains |
| PriceConversion.ThousandsCommaIgnored | convert_prices_to_gbp.py:22-25 | a rupee amount converts the same with or without thousands separators (`₹1,999` and `₹1999`) |
| PriceConversion.CommaOnlyMatchRaises | convert_prices_to_gbp.py:25 | `₹,` makes the float parse raise |
| PriceConversion.PriceColumns | convert_prices_to_gbp.py:36 | the columns selected are exactly those whose header contains `Price` or `MRP`, in increasing order |
| PriceConversion.IsPriceHeader | convert_prices_to_gbp.py:36 | a header names a price column when it contains `Price` or `MRP`; used by `PriceColumns` |
| PriceConversion.ConvertCells | convert_prices_to_gbp.py:39-40 | the inner loop over one row's price columns; specified by `ConvertCellsMeaning` |
| PriceConversion.ConvertRows | convert_prices_to_gbp.py:38-40 | the outer loop over the data rows; specified by `ConvertRowsMeaning` |
| PriceConversion.ConvertTable | convert_prices_to_gbp.py:31-45 | the header, the converted rows and the errors of one file; specified by `ConvertTableMeaning` and `TableContents` |
| PriceConversion.RowMeaning | convert_prices_to_gbp.py:36-40 | a row converts exactly when each column with a price header exists in it and converts; then those cells hold their conversion and the others are kept |
| PriceConversion.ConvertCellsMeaning | convert_prices_to_gbp.py:38-40 | a row converts exactly when every price cell exists and converts; then exactly those cells are replaced by their conversion and the others are kept |
| PriceConversion.ConvertRowsMeaning | convert_prices_to_gbp.py:38-40 | the row loop succeeds exactly when every row does, converting each row on its own and keeping the row order |
| PriceConversion.ConvertRowsPrefixFailure | convert_prices_to_gbp.py:38-40 | an error in the first rows is the error of the whole loop |
| PriceConversion.ConvertRowsInPlace | convert_prices_to_gbp.py:38-40 | the in-place nested loop leaves the array holding the converted rows, or reports the first error of the loop |
| PriceConversion.TableConvertsIff | convert_prices_to_gbp.py:31-40 | a table converts exactly when it has a header row and, in every data row, each column with a price header exists and converts |
| PriceConversion.TableContents | convert_prices_to_gbp.py:31-45 | a converted table keeps the header, the row count and every row length; each price cell becomes its conversion and every other cell is kept |
| PriceConversion.ConvertTableMeaning | convert_prices_to_gbp.py:29-45 | the written table keeps the header, the row count and every non-price cell, and each price cell becomes its conversion; it fails exactly for an empty file, a short row, or a price cell whose conversion fails |
| PriceConversion.ConvertFileContents | convert_prices_to_gbp.py:31-45 | copying the data rows into an array, converting them in place and writing them back after the header gives the table conversion |
| PriceConversion.ConvertFiles | convert_prices_to_gbp.py:29-45 | a run over several files creates and deletes no file |
| PriceConversion.ConvertFilesFrame | convert_prices_to_gbp.py:29-45 | files the run was not asked to convert are left as they were |
| PriceConversion.ConvertFilesComplete | convert_prices_to_gbp.py:29-45 | over distinct paths, the run finishes exactly when every file exists and converts, and each file then holds the conversion of its own table |
| PriceConversion.DataDirectory.constructor | convert_prices_to_gbp.py:29 | the directory starts with the given files |
| PriceConversion.DataDirectory.ConvertAll | convert_prices_to_gbp.py:29-45 | the file loop leaves the directory, and reports the error, as the file-by-file run does |
| ConvertPrices.Run | convert_prices_to_gbp.py:9-45 | the shirts, sarees and watches files are each replaced by their conversion, or the run stops at the first missing or unconvertible file; other files never change |
| ConvertCleanedPrices.Run | convert_cleaned_prices_to_gbp.py:6-36 | the cleaned file is replaced by its conversion, or the reason it could not be is reported and nothing changes |
| AmazonQa.QuestionMap | src/components/process_amazon_qa.py:14-18 | the dictionary holds only ids that were read |
| AmazonQa.BuildQuestionMap | src/components/process_amazon_qa.py:15-18 | the loop builds the dictionary of all question rows read in order |
| AmazonQa.QuestionMapHasEveryId | src/components/process_amazon_qa.py:15-18 | every id read is in the dictionary |
| AmazonQa.LastWriteWins | src/components/process_amazon_qa.py:15-18 | for a repeated id the dictionary holds the text of the last row with that id |
| AmazonQa.MultiPairs | src/components/process_amazon_qa.py:23-29 | at most one pair is written per answer |
| AmazonQa.PairFor | src/components/process_amazon_qa.py:25-29 | the pair for one answer; its meaning is stated by `OneAnswerWritten` and `MultiPairsSound` |
| AmazonQa.MultiPairsAppend | src/components/process_amazon_qa.py:23-29 | the join distributes over concatenation, so written pairs follow answer order |
| AmazonQa.MultiPairsSound | src/components/process_amazon_qa.py:25-29 | every written pair is the dictionary's question for some answer's id, together with that answer; the question is truthy and the answer is not null |
| AmazonQa.OneAnswerWritten | src/components/process_amazon_qa.py:25-29 | an answer is written exactly when its id maps to a truthy question and the answer is not null |
| AmazonQa.MissingQuestionTextIsWritten | src/components/process_amazon_qa.py:27-29 | a missing (NaN) question text is truthy, so the pair is written with the missing question |
| AmazonQa.SinglePairs | src/components/process_amazon_qa.py:37-41 | at most one pair is written per row |
| AmazonQa.Field | src/components/process_amazon_qa.py:38-39 | `row.get(lower) or row.get(upper)`; its meaning is stated by the fallback rows below |
| AmazonQa.SinglePairFor | src/components/process_amazon_qa.py:38-40 | the pair for one row; its meaning is stated by `SinglePairsSound` and the fallback rows below |
| AmazonQa.SinglePairsSound | src/components/process_amazon_qa.py:37-41 | every appended pair is the pair of some row, and every row that has a pair contributes it |
| AmazonQa.SinglePairsAreTexts | src/components/process_amazon_qa.py:38-41 | every pair written holds a non-null question text and a non-null answer text |
| AmazonQa.LowerCaseColumnPreferred | src/components/process_amazon_qa.py:38-41 | a non-empty `question` text is used whatever `Question` holds |
| AmazonQa.EmptyLowerCaseFallsBack | src/components/process_amazon_qa.py:38-41 | when `question` and `answer` are absent or empty, the row is written from `Question` and `Answer` exactly when both hold text, and skipped otherwise |
| AmazonQa.MissingLowerCaseHidesFallback | src/components/process_amazon_qa.py:38-41 | a missing (NaN) `question` value is truthy, so it is kept and the row is skipped even when `Question` holds text |
| AmazonQa.OutputFile.constructor | src/components/process_amazon_qa.py:20 | the output file starts empty |
| AmazonQa.OutputFile.ProcessMultiQa | src/components/process_amazon_qa.py:12-30 | the file is truncated to the header followed by the joined pairs in answer order |
| AmazonQa.OutputFile.ProcessSingleQna | src/components/process_amazon_qa.py:32-42 | the single-file pairs are appended after what the file already holds |
| AmazonQa.BuildCleanedQa | src/components/process_amazon_qa.py:44-46 | the output is the header, then the multi pairs, then the single pairs |
| Requirements.StripAll | setup.py:14-15 | every line is replaced by its stripped form, and the count is kept |
| Requirements.FirstIndex | setup.py:17-18 | the index found holds the value and no earlier element does |
| Requirements.RemoveFirst | setup.py:17-18 | `list.remove` of the first occurrence; its meaning is stated by the three rows below |
| Requirements.RemoveFirstShape | setup.py:17-18 | the removal cuts out exactly the first occurrence and keeps the order of the rest; without an occurrence nothing changes |
| Requirements.RemoveFirstMultiset | setup.py:17-18 | exactly one copy is removed when present, so the length drops by one; otherwise nothing is removed |
| Requirements.RemoveFirstAbsent | setup.py:17-18 | without an occurrence, nothing is removed |
| Requirements.RemoveFirstPresent | setup.py:17-18 | with an occurrence at an index and none before it, exactly that element is cut out |
| Requirements.StripInPlace | setup.py:14-15 | the loop over the list replaces every line by its stripped form |
| Requirements.FindEditableInstall | setup.py:17-18 | the search returns the first `-e .` or the length of the list when there is none |
| Requirements.GetRequirements | setup.py:6-20 | the in-place strip loop followed by the search and removal gives the stripped lines without their first `-e .` |
| Requirements.RequirementsAreStrippedLines | setup.py:10-20 | the result has the input's length or one less; it is the stripped lines, or those lines with exactly the first `-e .` cut out |
| Requirements.BlankLineKept | setup.py:14-15 | a whitespace-only line becomes an empty string that is kept |
| ChatClient.MessageToSend | static/js/chatbot.js:70-71 | a message sent is non-empty and neither starts nor ends with whitespace |
| ChatClient.MessageToSendMeaning | static/js/chatbot.js:70-71 | nothing is sent exactly when the input is all whitespace; otherwise the input minus its surrounding whitespace is sent |
| ChatClient.FormatBotMessage | static/js/chatbot.js:48 | `\n` to `<br>` everywhere; its meaning is stated by the two rows below |
| ChatClient.FormatBotMessageMeaning | static/js/chatbot.js:47-49 | no newline survives the rendering, and a message without newlines is rendered unchanged |
| ChatClient.FormatBotMessageNewline | static/js/chatbot.js:48 | the text before the first newline is kept, that newline becomes `<br>`, and the rest is rendered the same way |
| ChatClient.CollapseSpaces | static/js/chatbot.js:96 | collapsing never lengthens the text and keeps its first character |
| ChatClient.CollapseRuns | static/js/chatbot.js:96 | the regular expression ` {2,}` with the `g` flag, as a reference: each maximal run of two or more spaces becomes one space |
| ChatClient.CollapseRun | static/js/chatbot.js:96 | a leading run of spaces collapses to one space followed by the collapse of the rest |
| ChatClient.CollapseSpacesMatchesRuns | static/js/chatbot.js:96 | the character-by-character collapse equals the run-by-run reference on every text |
| ChatClient.CollapseAppend | static/js/chatbot.js:96 | texts that do not meet in two spaces collapse separately |
| ChatClient.CollapseSpacesNoDouble | static/js/chatbot.js:96 | no two spaces are adjacent after collapsing |
| ChatClient.CollapseSpacesKeepsText | static/js/chatbot.js:96 | only spaces are removed: the other characters are kept, in order |
| ChatClient.CollapseSpacesIdentity | static/js/chatbot.js:96 | text without a double space is left unchanged |
| ChatClient.CollapseNoNewPattern | static/js/chatbot.js:95-96 | collapsing cannot create an occurrence of a pattern without spaces |
| ChatClient.InvoiceReformat | static/js/chatbot.js:94-97 | the three-step chain; its meaning is stated by the two rows below |
| ChatClient.InvoiceReformatMeaning | static/js/chatbot.js:94-97 | the result is the trimmed run-collapse of the text with every 29-hyphen rule replaced by the box rule; no rule remains, no two spaces are adjacent, and there is no whitespace at either end |
| ChatClient.InvoiceReformatExample | static/js/chatbot.js:94-97 | `" a  "` + rule + `" "` becomes `"a "` + box rule |
| ChatClient.FormatResponse | static/js/chatbot.js:92-98 | only a reply mentioning `Order Invoice` is reformatted; specified by `PlainReplyUnchanged` and `InvoiceReformatMeaning` |
| ChatClient.PlainReplyUnchanged | static/js/chatbot.js:92-98 | a reply without `Order Invoice` is shown unchanged |
| ChatClient.ClampHeight | static/js/chatbot.js:39 | the height is the smaller of the needed height and 120 |
| ChatClient.ReplyText | static/js/chatbot.js:86-106 | the text shown for each outcome of the request; specified by `ReplyTextMeaning` |
| ChatClient.ReplyTextMeaning | static/js/chatbot.js:86-106 | every failure ends in the fixed apology; a usable reply without `Order Invoice` is shown as received |
| ChatClient.Render | static/js/chatbot.js:43-52 | user messages are inserted as text unchanged; a bot message is inserted as HTML, and that HTML is its `\n`-to-`<br>` rendering, without newlines |
| ChatClient.ChatWidget.constructor | static/js/chatbot.js:6-8 | the widget starts with an empty input, no messages and no typing indicator |
| ChatClient.ChatWidget.AutoResize | static/js/chatbot.js:37-40 | the height becomes the clamped height, and nothing else changes |
| ChatClient.ChatWidget.AddMessage | static/js/chatbot.js:43-56 | exactly one rendered message is appended, and nothing else changes |
| ChatClient.ChatWidget.Exchange | static/js/chatbot.js:73-106 | the user message and then the rendered reply are appended, the input is cleared and resized, and the typing indicator ends off |
| ChatClient.ChatWidget.SendMessage | static/js/chatbot.js:69-107 | a blank input changes nothing; otherwise the trimmed user message and then the bot reply (or the apology) are appended; the input is cleared and resized, and the typing indicator ends off |

## Left out

- Vendor SDKs are reduced to "which call raises" and configuration records. This covers NVIDIA embeddings,
  ChatGroq, Pinecone (client, listing, creation, index handle, both describes, upload; see
  `VectorStoreBuilder.CreateVectorStore`) and LangChain's retrieval, stuff-documents and
  message-history runnables. How the library retrieves, appends turns or applies k and the threshold is not
  modelled.
- RetrievalChain.Prompt: the system text reproduces only the first instruction line and the closing context
  section. The remaining instruction lines are prose for the language model.
- PriceConversion.InrToGbp: the float product with 0.0095 and `round(…, 2)` are the abstract parameter
  `toPence`. A literal whose value exceeds the largest double (about 1.8e308) becomes `inf`; `round(inf, 2)`
  is `inf`, so the cell is written as `£inf`. This is not modelled.
- PriceConversion.FirstPriceMatch: `\d` is restricted to the ASCII digits. Python's `re` on `str` also
  matches the other Unicode decimal digits.
- PriceConversion.InrToGbp: Python `str.lower` is modelled as ASCII case folding. No other character folds to
  a letter of `na`, so the `NA` test is exact. The same holds for `true` in `VectorStoreBuilder.DataPath`.
- File and CSV I/O are modelled as values. Files are maps from path to parsed rows or loaded documents. No
  CSV quoting, encoding, pandas chunking or dtype inference is modelled, and Q&A ids are compared as
  strings. How the CSV writer renders a missing (NaN) question cell is not modelled.
- VectorStoreBuilder.LoadData: each document's content is rewritten in a sequence of values, not in a shared
  object. Aliasing of the loader's document objects is not captured. The `hasattr` test always holds for
  loader output and is not modelled.
- app.py is not part of this model. It is Flask plumbing whose hard-coded session id `chat_1` makes all
  clients share one history.
- src/components/chatbot_builder.py is not part of this model. It is another configuration of the same
  vendor objects, with threshold 0.7 and no history slot.
- DOM, timers, event listeners, popups, scrolling and `fetch` are the browser's. The widget keeps only the
  input text, its height, the typing indicator and the message list. The height is stored as a number
  without the `px` suffix.
- ChatClient.ChatWidget.SendMessage: only the final state is stated. While the request is pending, the typing
  indicator is on; this intermediate state is not observable in a sequential model.
- `time.sleep` waits, logging and debug prints are left out, including the printing of API keys.
- Concurrent access to the shared session dictionary is left out. It is unsynchronised in the source and
  is not a sequential property.
- The `setup()` packaging call of setup.py is left out.
