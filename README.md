# INVADUCTAR-GPT core, modelled in Dafny

INVADUCTAR-GPT is a breast-cancer (invasive ductal carcinoma) chatbot. A
LangGraph agent routes each turn, either to an image path (CLIP
classification, then an LLM explanation) or to a general chat reply. Flask,
Streamlit, command-line and Next.js front ends share a persisted
`conversation.json`. This project models the list and string logic that sits
under that glue, and proves properties of it:

- **`Agent`** (agent.py) models `process_node`:
  - the backward search for the last human message;
  - the case- and padding-insensitive `ANALYZE_IMAGE:` command test;
  - the image reference, taken after the first colon;
  - the two appending branches and their error messages.
- **`Tools`** (tools.py) models:
  - the CLIP result record (first argmax, the four-label score map, `confidence == scores[prediction]`);
  - the "not a doctor" disclaimer rule of `explain_result`;
  - citation numbering, the context and the References block of `rag_query`.
- **`ApiServer`** (api_server.py) models:
  - the lower-case marker sanitizer and its idempotence;
  - the lossy conversation codec, which resets tool call ids;
  - the `/api/conversation` view;
  - the chat route and the image-upload route.
- **`ChatApi`** (chat_api.py) models:
  - the case-sensitive marker and prefix sanitizer, with its long-paragraph fallback;
  - the human/ai-only codec;
  - the command-line chat.
- **`App`** (app.py) models:
  - the lossless codec, which keeps tool ids and turns foreign kinds into ai messages;
  - the Streamlit session as a class whose conversation the buttons update.
- **`SimpleChatApi`** and **`ImageApi`** model the two command-line wrappers:
  - exit conditions;
  - the idempotent medical disclaimer;
  - the `splitext` extension whitelist.
- **`ConversationRoute`** models the Next.js `GET /api/conversation` projection.
- **`IngestPdfs`** (ingest_pdfs.py) models:
  - the `https?://\S+` scanner, with links in text order;
  - the per-chunk link filter;
  - document metadata;
  - the no-documents error.
- **Shared modules:**
  - **`Strings`** models Python's string operations: `strip` over the `str.isspace` set, `splitlines`, `split`, `join`, `in`, and ASCII `lower`/`upper`.
  - **`Messages`** holds the message datatypes and a generic record codec. Each front end instantiates that codec with its own record mapping.

Messages are `Human(content)`, `AI(content)`, `Tool(content, toolCallId)` and
`Other(content, repr)`. `Other` stands for any other LangChain message kind. A
stored file is `Missing`, `Unreadable` or `Saved(records)`, and a record
holds optional `type`, `content` and `tool_call_id` fields.

Exceptions are values: a collaborator returns `Call<T>`, which is
`Returned(value)` or `Raised(error)`. The remote models, CLIP, the PDF
reader, the text splitter, the agent's `invoke` and the file-existence test
are all function-typed parameters.

Behaviour of the code that is easy to misread:

- **An image that cannot be opened.** It does not end the turn with a single error message. `analyze_image` returns an `{"error": ...}` record, and the router appends that record as a tool message and has it explained (`Agent.UnopenableImageExplained`).
- **The disclaimer test of `explain_result`.** It looks for "not a doctor" only. The text it appends does not contain that phrase, so applying the rule twice appends the disclaimer twice (`Tools.DisclaimerTwice`).
- **Unknown record types.** Only app.py recovers them, as ai messages. A record without a `type` field makes the whole chat_api.py and app.py load return `[]`. api_server.py drops such records.
- **A failed agent call.** In app.py nothing is saved when the agent raises, and the command stays in the session only.

## Model

| member | source | states |
|---|---|---|
| Messages.LastMatch | agent.py:55-59 | the index found satisfies the predicate and no later index does; None exactly when no message satisfies it |
| Messages.FindLast | agent.py:55-59 | the reversed scan with break returns exactly the last matching index |
| Messages.PickReply | simple_chat_api.py:26-31 | the reversed scan with break yields the content of the last non-human message, or None when there is none |
| Messages.ReplyOfFinalAI | simple_chat_api.py:28-31 | when the appended messages end in an AIMessage, the selected reply is that message's content, whatever the earlier history |
| Messages.EncodeAppend | api_server.py:42-50 | the save loop encodes a concatenation as the concatenation of the encodings |
| Messages.DecodeAppend | api_server.py:27-36 | loading a concatenation fails when either part fails, and otherwise gives the two parts' messages in order |
| Messages.DecodeFails | api_server.py:27-38 | one record that raises KeyError empties the whole load, wherever it sits |
| Messages.DecodeSkips | api_server.py:28-35 | a record that decodes to nothing leaves the rest of the load unchanged |
| Messages.DecodeMiddle | api_server.py:27-36 | a decodable record contributes its own messages at its own position |
| Messages.RoundTripBy | api_server.py:22-52 | if each message's records decode to f(m), the whole saved log loads as the expansion of the log by f |
| Messages.ExpandFixed | app.py:19-51 | expanding by a mapping that fixes every message returns the log unchanged |
| Agent.ImageReference | agent.py:65-66 | the extracted image reference is always stripped |
| Agent.CommandHasColon | agent.py:62-65 | every command contains a colon, so splitting at the first colon cannot fail |
| Agent.LatestCommand | agent.py:55-65 | the latest human message of an image turn contains a colon |
| Agent.ImageReply | agent.py:63-83 | the image branch appends one or two messages and ends in an AIMessage; with two, the first is a ToolMessage with id "analyze_image" |
| Agent.ChatReply | agent.py:86-91 | the chat branch appends exactly one AIMessage |
| Agent.Reply | agent.py:61-93 | every branch appends one or two messages ending in an AIMessage; two only on an image turn, the first being the "analyze_image" tool message |
| Agent.ProcessNode | agent.py:45-93 | the result is the input followed by the branch's reply: one or two messages longer, the old prefix untouched, the last message an AIMessage |
| Agent.StripUpper | agent.py:62 | stripping and upper-casing commute, so the command test does not depend on their order |
| Agent.CommandIgnoresCase | agent.py:62 | two contents with the same upper-case form are both commands or both not |
| Agent.LowerCaseCommand | agent.py:62 | a lower-cased content is a command exactly when the original is |
| Agent.CommandIgnoresPadding | agent.py:62 | surrounding whitespace does not change whether a content is a command |
| Agent.ReferenceAt | agent.py:65-66 | when the first colon of a command is at index k, the image reference is the stripped text after index k |
| Agent.ReferenceIgnoresPadding | agent.py:65-66 | surrounding whitespace does not change the extracted reference |
| Agent.CommandDetected | agent.py:62 | "ANALYZE_IMAGE: " + path is a command for every path |
| Agent.CommandParsed | agent.py:65-66 | the reference parsed from "ANALYZE_IMAGE: " + path is path.strip() |
| Agent.CommandRoundTrip | agent.py:62-66 | building the command and parsing it back recovers the stripped path |
| Agent.PlainTurnAppendsOneReply | agent.py:86-91 | a non-command turn ignores the image tools and appends exactly one AIMessage, the reply or "Error generating reply: " + error |
| Agent.NoHumanChatsEmpty | agent.py:88 | with no human message, general_chat receives "" |
| Agent.ChatSeesLatestHuman | agent.py:55-62 | the chat input and the command test both use the last human message |
| Agent.ImageTurnSucceeds | agent.py:69-78 | when analysis and explanation return, the reply is exactly the tool message with id "analyze_image" followed by the explanation |
| Agent.ImageTurnExplainFails | agent.py:69-83 | when the explanation raises, the tool message stays and one AIMessage "Error during image analysis: " + error follows it |
| Agent.ImageTurnAnalyzeFails | agent.py:69-83 | when the analysis raises, exactly one AIMessage "Error during image analysis: " + error is appended |
| Agent.UnopenableImageExplained | agent.py:69-77 | an image that cannot be opened yields the error record as a tool message, then its explanation with the disclaimer applied; the error branch is not taken |
| Agent.SubmittedCommand | agent.py:62-66 | after "ANALYZE_IMAGE: " + path is appended to any history, the turn is an image turn on path.strip() |
| Tools.LabelsDistinct | tools.py:61 | the four labels are pairwise distinct |
| Tools.ArgMax | tools.py:74 | the chosen index lies within the scores |
| Tools.ArgMaxFirst | tools.py:74 | the chosen score is at least every score, and strictly greater than every earlier one |
| Tools.ArgMaxUnique | tools.py:74 | the first maximal index is the only index argmax can return |
| Tools.ScoresAt | tools.py:78 | the score map has exactly the four labels as keys, each mapped to its own score |
| Tools.AnalyzeImage | tools.py:56-79 | an error record exactly when the image cannot be opened; otherwise the scores cover the four labels, the prediction is a key, and its score is the confidence and no score exceeds it |
| Tools.PredictionIsFirstBest | tools.py:74-78 | the prediction is the label at the first index of a maximal score, and the confidence is that score |
| Tools.ExplainResult | tools.py:119-134 | a raised model call propagates; otherwise the result is the model content with the disclaimer rule applied |
| Tools.DisclaimerRule | tools.py:131-132 | the output starts with the content, and equals it exactly when the lower-cased content contains "not a doctor" |
| Tools.DisclaimerLacksPhrase | tools.py:132 | the appended disclaimer does not contain "not a doctor" once lower-cased |
| Tools.DisclaimerTwice | tools.py:131-132 | applying the rule twice to content lacking the phrase appends the disclaimer twice |
| Tools.CitationShape | tools.py:181-186 | a citation starts with "[i]"; it ends with "(links[0])" when there are links, and is exactly "[i]" otherwise |
| Tools.NumberDocuments | tools.py:177-188 | the loop builds one context part and one (i, links) reference per document, numbered from 1 in retrieval order |
| Tools.ContextCites | tools.py:180-188 | part k is the stripped page content, a space and the citation numbered k+1, linked to the first link exactly when the document has links |
| Tools.RagQuery | tools.py:172-225 | no documents gives exactly the "No relevant documents found." result; otherwise the model answer followed by the References heading and block |
| Tools.NoDocumentsNoModelCall | tools.py:174-175 | with no documents the result does not depend on the model at all |
| Tools.RefLineHasNoBreak | tools.py:219 | a reference line has no line feed when its links have none |
| Tools.ReferencesOnePerDoc | tools.py:218-221 | the References block splits into exactly one line per document, in order, each "[i]: " with its links or "No link available" |
| ApiServer.KeepOne | api_server.py:65-66 | stripping a marker-free line yields a stripped, marker-free line and adds no line break |
| ApiServer.KeptLines | api_server.py:63-66 | the filter keeps at most one line per input line |
| ApiServer.KeptClean | api_server.py:64-66 | every kept line is stripped and contains none of the five markers in lower case |
| ApiServer.KeptOfClean | api_server.py:64-66 | lines already stripped and marker-free are all kept, unchanged and in order |
| ApiServer.ExtractFinalResponse | api_server.py:58-68 | the loop computes the sanitizer: the stripped join of the kept lines, or content.strip() when that is empty |
| ApiServer.StripJoin | api_server.py:67 | stripping the join of stripped lines drops exactly the leading and trailing empty lines |
| ApiServer.TrimmedLines | api_server.py:66-67 | the trimmed join splits back into exactly the trimmed kept lines, each stripped and marker-free |
| ApiServer.FilteredLines | api_server.py:62-68 | when some line survives, the result's lines are the kept lines without leading and trailing blanks, each stripped and marker-free |
| ApiServer.KeptBlankIffDull | api_server.py:64-66 | every kept line is empty exactly when every input line is blank or marked |
| ApiServer.FilteredEmptyIffDull | api_server.py:62-67 | the filtered text is empty exactly when every line is blank or marked |
| ApiServer.FinalEmptyIffBlank | api_server.py:58-68 | the result is "" exactly when the content is empty or all whitespace |
| ApiServer.FilteredFixed | api_server.py:62-68 | filtering a non-empty filtered text changes nothing |
| ApiServer.FallbackFixed | api_server.py:62-68 | when nothing survives the filter, nothing survives it in the stripped content either |
| ApiServer.FinalIdempotent | api_server.py:58-68 | sanitizing twice equals sanitizing once |
| ApiServer.SaveConversation | api_server.py:42-52 | the save loop writes the records of the codec, in message order |
| ApiServer.SavedShape | api_server.py:42-50 | every written record has a known type and a content and never a tool_call_id |
| ApiServer.LoadConversation | api_server.py:22-39 | the load loop returns the codec's messages, or [] for a missing, unreadable or failing file |
| ApiServer.MissingContentEmptiesLoad | api_server.py:28-38 | a known-type record without content empties the whole load |
| ApiServer.UnknownRecordSkipped | api_server.py:28-35 | a record whose type is missing or not human/ai/tool is dropped and the rest loads as before |
| ApiServer.RecordRoundTrip | api_server.py:22-50 | each saved message reloads as itself, a tool message with id "", and another kind as nothing |
| ApiServer.RoundTrip | api_server.py:22-52 | load(save(log)) keeps the kinds and contents of human, ai and tool messages in order, resets tool ids to "" and drops other kinds |
| ApiServer.GetConversation | api_server.py:166-176 | the loop returns the view of the loaded conversation |
| ApiServer.ViewSanitized | api_server.py:171-175 | every entry is "user" or "ai", and every ai entry is already sanitized |
| ApiServer.ViewAppend | api_server.py:171-175 | the view of a concatenation is the concatenation of the views, so order is kept |
| ApiServer.ViewOne | api_server.py:171-175 | a human message becomes a "user" entry with its content verbatim, an ai message an "ai" entry with its sanitized content, any other message nothing |
| ApiServer.ViewSurvivesReload | api_server.py:169-176 | saving and reloading a log does not change its view |
| ApiServer.Chat | api_server.py:74-103 | a blank message is a 400 that saves nothing; a raise is a 500 that saves nothing; otherwise the result is saved and the sanitized latest AI reply returned |
| ApiServer.ChatTurnWithAgent | api_server.py:82-93 | with the real router on a plain message, the saved records grow by the human record and the one reply, and the response is that reply sanitized |
| ApiServer.SplitHasSecond | api_server.py:114-118 | a data URL containing a comma has a second comma-separated piece |
| ApiServer.Upload | api_server.py:110-160 | the route's outcome, and on success the loaded log with the three upload messages saved; on failure nothing saved |
| ApiServer.UploadSaved | api_server.py:144-148 | a successful upload appends exactly a human, a tool ("analyze_image") and an ai record, in that order |
| ApiServer.AnalyzeImageRoute | api_server.py:129-133 | the route as written hands "ANALYZE_IMAGE: " + path to the image tool |
| ApiServer.AsWrittenUploadFails | api_server.py:130-137 | when only the saved path opens, every as-written upload answers 500 "Image analysis failed: ..." and saves nothing |
| ApiServer.AnalyzeImageRouteFixed | api_server.py:129-133 | the corrected route hands the saved path itself to the image tool |
| ApiServer.FixedUploadSucceeds | api_server.py:140-156 | with the saved path, the upload scores the image, answers 200 with the sanitized explanation and saves the three records |
| ChatApi.LastSubstantial | chat_api.py:74-77 | the index found has a stripped length over 50 and no later paragraph does; None exactly when none does |
| ChatApi.LastSubstantialAt | chat_api.py:75-77 | a paragraph over 50 with none after it is the one chosen |
| ChatApi.ExtractFinalResponse | chat_api.py:39-78 | the line loop computes the sanitizer: the kept lines joined by "\n", or the paragraph fallback |
| ChatApi.LongParagraphFallback | chat_api.py:73-78 | the reversed paragraph loop with early return computes the fallback |
| ChatApi.FallbackCases | chat_api.py:73-78 | the fallback is the last paragraph whose stripped length exceeds 50, stripped, or the content unchanged when there is none |
| ChatApi.ResponseLinesClean | chat_api.py:59-67 | every kept line is non-empty, stripped, free of the eight markers and of the seven reasoning openers |
| ChatApi.ResponseLinesNoBreak | chat_api.py:56-67 | no kept line contains a line feed |
| ChatApi.OutputLines | chat_api.py:56-71 | when some line survives, the output splits at "\n" into exactly the kept lines |
| ChatApi.ResponseLinesAppend | chat_api.py:59-67 | the filter keeps order: the kept lines of a concatenation are the concatenation of the kept lines |
| ChatApi.ResponseLinesOne | chat_api.py:60-67 | a single line gives its kept form or nothing |
| ChatApi.DroppedLine | chat_api.py:60-66 | a line that is empty, marked or a reasoning opener once stripped contributes nothing |
| ChatApi.KeptLineStays | chat_api.py:60-67 | any other line contributes its stripped form at its own position |
| ChatApi.SaveConversation | chat_api.py:26-37 | the save loop writes only human and ai records, in order |
| ChatApi.LoadConversation | chat_api.py:8-24 | the load loop returns the codec's messages, or [] for a missing, unreadable or failing file |
| ChatApi.RecordRoundTrip | chat_api.py:15-34 | a human or ai message reloads as itself, and any other message as nothing |
| ChatApi.RoundTrip | chat_api.py:8-37 | load(save(log)) is the log with everything but human and ai messages removed |
| ChatApi.MissingTypeEmptiesLoad | chat_api.py:16-24 | one record without a type empties the whole load |
| ChatApi.OtherTypeSkipped | chat_api.py:16-20 | a record of any other type is dropped and the rest loads as before |
| ChatApi.RunChat | chat_api.py:80-113 | fewer than two arguments or a raise exits 1 and saves nothing; otherwise the result is saved and the sanitized latest AI message, or "", is printed |
| App.SaveConversation | app.py:39-51 | the save loop writes each message as one record, keeping tool ids and writing other kinds as "unknown" |
| App.LoadConversation | app.py:19-37 | the load loop returns the codec's messages, or [] for a missing, unreadable or failing file |
| App.RecordRoundTrip | app.py:19-49 | each message reloads as itself, and a foreign message as an ai message holding its str() |
| App.RoundTrip | app.py:19-51 | load(save(log)) is the log with foreign messages turned into ai messages |
| App.LosslessRoundTrip | app.py:19-51 | load(save(log)) == log for every log of human, ai and tool messages, tool ids included |
| App.DecodedKinds | app.py:24-34 | the loader only ever produces human, ai and tool messages |
| App.LoadedKinds | app.py:19-37 | a loaded conversation has no foreign messages |
| App.ForeignLoadsAsAI | app.py:32-33 | a record of any other type loads as an ai message with the same content, in place |
| App.ToolWithoutId | app.py:30-31 | a tool record without a tool_call_id loads with id "" |
| App.Session.constructor | app.py:61-62 | the session starts with the loaded file, and the file reloads to the session |
| App.Session.Clear | app.py:53-56 | the session conversation is [] and the file is gone, so the next load gives [] |
| App.Session.AnalyzeImage | app.py:110-121 | exactly "ANALYZE_IMAGE: " + path is appended; on return the agent's result is kept and saved, in sync with the file; on a raise the command stays and nothing is saved |
| App.Session.Ask | app.py:126-134 | an empty entry changes nothing; otherwise the stripped text is appended and the agent's result kept and saved, or nothing saved on a raise |
| SimpleChatApi.DisclaimerRule | simple_chat_api.py:35-36 | the output starts with the response, and equals it exactly when the lower-cased response contains "not a doctor" or "disclaimer" |
| SimpleChatApi.DisclaimerMentionsItself | simple_chat_api.py:36 | the appended text contains "disclaimer" once lower-cased |
| SimpleChatApi.DisclaimerIdempotent | simple_chat_api.py:35-36 | applying the disclaimer rule twice equals applying it once |
| SimpleChatApi.Run | simple_chat_api.py:8-45 | a missing argument, a raise or no non-empty reply exits 1; otherwise the reply from a one-message state is printed with the disclaimer rule applied |
| SimpleChatApi.RouterAnswers | simple_chat_api.py:17-31 | with the real router the selected reply is the content of the last message it appended |
| ImageApi.RFind | image_api.py:22 | the index found lies in the path, or is -1 |
| ImageApi.RFindLast | image_api.py:22 | the index found holds the character, and no later index does |
| ImageApi.Extension | image_api.py:22 | the extension is empty or a suffix of the path |
| ImageApi.ExtensionShape | image_api.py:22 | a non-empty extension starts with its only dot and holds no separator |
| ImageApi.ExtensionOfName | image_api.py:22 | "dir/stem.ext" has extension ".ext" |
| ImageApi.ExtensionLower | image_api.py:22 | lower-casing commutes with taking the extension |
| ImageApi.AcceptanceIgnoresCase | image_api.py:22-25 | a path is accepted exactly when its lower-cased form is |
| ImageApi.UpperCaseAccepted | image_api.py:22-25 | "scans/scan.PNG" is accepted |
| ImageApi.CommandClassified | image_api.py:30-32 | the one-message state built from a path is an image turn on path.strip() |
| ImageApi.Run | image_api.py:8-54 | each exit in order: no argument, missing file, unsupported extension, a raise, no non-empty reply; otherwise the reply is printed; the exit code is always 0 or 1 |
| ConversationRoute.Get | src/app/api/conversation/route.ts:5-40 | the answer always reports success, with no messages for a missing or unreadable file |
| ConversationRoute.KeptShown | src/app/api/conversation/route.ts:20 | every listed record has content that is not all JavaScript whitespace |
| ConversationRoute.KeptAppend | src/app/api/conversation/route.ts:19-20 | the filter keeps order across a concatenation |
| ConversationRoute.KeptOne | src/app/api/conversation/route.ts:20 | a single record is kept exactly when its content is present and not blank |
| ConversationRoute.EntriesShape | src/app/api/conversation/route.ts:19-26 | one entry per kept record, ids 1..n, message the stored content, isUser exactly when the type is "human" |
| ConversationRoute.BlankDropped | src/app/api/conversation/route.ts:19-26 | a record adds one entry when it is shown and none otherwise |
| IngestPdfs.NonSpaceRun | ingest_pdfs.py:23 | the run of non-whitespace is greedy: it ends only at whitespace or at the end of the text |
| IngestPdfs.NonSpaceRunShape | ingest_pdfs.py:23 | the run holds no whitespace |
| IngestPdfs.LinksShape | ingest_pdfs.py:23 | every extracted link starts with "http://" or "https://", holds no whitespace and occurs in the page text |
| IngestPdfs.LinksInOrder | ingest_pdfs.py:23 | the links of a text split at a whitespace character are the links before it followed by the links after it |
| IngestPdfs.ExtractTextAndLinks | ingest_pdfs.py:12-26 | the page loop pairs every page text with its links, in page order |
| IngestPdfs.ChunkLinksAppend | ingest_pdfs.py:53 | the filter keeps the page order of the links |
| IngestPdfs.ChunkLinksOne | ingest_pdfs.py:53 | a single link is kept exactly when it occurs in the chunk |
| IngestPdfs.ChunkLinksSound | ingest_pdfs.py:53 | every kept link occurs in the chunk |
| IngestPdfs.ChunkLinksComplete | ingest_pdfs.py:53 | every page link that occurs in the chunk is kept |
| IngestPdfs.FileDocuments | ingest_pdfs.py:49-56 | the nested page and chunk loops build one document per chunk, in order |
| IngestPdfs.Ingested | ingest_pdfs.py:58-59 | a successful ingestion always has at least one document |
| IngestPdfs.BuildVectorstore | ingest_pdfs.py:29-59 | the file loop skips non-PDF names, propagates a reader failure, and raises the no-documents error when nothing was produced |
| IngestPdfs.RaisedStays | ingest_pdfs.py:42-47 | once a file raises, the whole ingestion raises with that error |
| IngestPdfs.FileDocsWellFormed | ingest_pdfs.py:49-56 | each document of a PDF file names that file and carries only links that occur in its text |
| IngestPdfs.DocumentsWellFormed | ingest_pdfs.py:42-56 | every document names a listed ".pdf" file and carries only links found in its own text |
| IngestPdfs.NoPdfNoDocuments | ingest_pdfs.py:42-59 | a directory without PDF names produces no documents and raises the no-documents error |
| Strings.StripShape | agent.py:66 | strip() is a slice between two whitespace runs, and the result has no whitespace at its ends |
| Strings.StripIdempotent | api_server.py:66 | stripping twice equals stripping once |
| Strings.StripPadded | agent.py:62 | added whitespace on either side does not change strip() |
| Strings.StripAllSpace | api_server.py:67-68 | strip() is empty exactly when the text is all whitespace |
| Strings.Find | chat_api.py:56 | the first occurrence of a pattern, or -1 exactly when there is none |
| Strings.IndexOf | agent.py:65 | the index found holds the character |
| Strings.IndexOfFirst | agent.py:65 | no earlier index holds the character |
| Strings.Split | chat_api.py:74 | split always returns at least one piece |
| Strings.SplitPieces | chat_api.py:74 | no piece contains the separator |
| Strings.SplitJoin | chat_api.py:71 | joining pieces free of a character and splitting at it returns the pieces |
| Strings.SplitLinesNoBreak | api_server.py:62 | no line of splitlines() holds a line boundary |
| Strings.SplitLinesJoin | api_server.py:62-67 | splitlines() of a "\n"-join of break-free lines, the last one non-empty, returns the lines |
| Strings.NatToString | tools.py:184 | the decimal form of a number is non-empty and all digits |
| Strings.NatToStringValue | tools.py:184 | the digits denote the number, with no leading zero unless it is 0: the form `f"[{i}]"` prints |

## Left out

- Remote model calls (tools.py:84, 119, 152, 205) are parameters returning a `Call`: the system prompts, the temperatures and the token limits are not modelled. The `resp.choices[0]` fallback to `str(resp)` is folded into the parameter.
- CLIP preprocessing, inference and softmax (tools.py:63-72) are left out: the classifier is an abstract function to four real scores. `str(analysis)` and `json.dumps` of a result are an abstract rendering.
- FAISS, the HuggingFace embeddings, the retriever, the text splitter and PdfReader are left out. They are library calls: the retriever's documents, the splitter and the page texts a reader yields (or its failure) are parameters, and persisting the vector store is not modelled.
- LangGraph's `add_messages` reducer and graph compilation (agent.py:22, 97-101) are left out: the state returned is taken to be exactly the list `process_node` builds.
- File and OS I/O are left out: the JSON reads and writes are the `Stored` value, with `Unreadable` standing for a corrupt file. Also left out: base64 decoding (a parameter that may raise), the upload directory, temporary files and the deletions of `clear_conversation` in api_server.py (181-203), which has no state to model beyond the file being `Missing`.
- The file-existence check of image_api.py (17-19) is a parameter `pathExists`.
- Flask, CORS, Streamlit rendering and reruns, the Next.js routes that spawn Python, and all UI are left out: they are plumbing. The Streamlit session is modelled only through the conversation it holds.
- Timestamps (`datetime.now`, `new Date()`) are left out, because they are nondeterministic. The upload's file name is the parameter `tmpPath`.
- `print` and `sys.exit` are an `Outcome(code, stdout, diagnostic)` value. The diagnostic holds the error message an entry point writes to stderr before it exits.
- ChatApi.RunChat: the "Could not load saved conversation: {e}" warning that chat_api.py:22-23 writes to stderr when the load fails is not part of the diagnostic, because the exception text is not modelled. The load itself is modelled: it yields `[]` and the run goes on.
- `upper()` and `lower()` are ASCII case mappings: Unicode case mapping is not modelled.
- ApiServer.Chat: it takes the message as a string. A request whose JSON body is not an object, which makes Flask raise before the route's own checks, is not modelled.
- ConversationRoute.Get: stored contents are strings or absent. A non-string JSON content (a number, an object) and its JavaScript truthiness are not modelled.
- Tools.RagQuery: the "\n\n"-join of the context parts is passed to the model as is. No lemma splits it back into the parts.
- ApiServer.Upload: the `explanation.get(..., "No detailed explanation generated.")` default of api_server.py:141 is not modelled. It is unreachable, because explain_result always returns a "result" key, so the route uses the explanation directly.
- IngestPdfs.BuildVectorstore: the directory listing is a parameter sequence of file names, in `os.listdir` order.
- Some loops of the source are methods of their own, called by the method that models the enclosing function, and each is proved equal to its specification function. `BuildVectorstore` is the file loop of build_vectorstore, and it calls `FileDocuments`, which holds the nested page and chunk loops. `NumberDocuments` is the loop of rag_query. `LongParagraphFallback` is the paragraph loop that follows the line loop of chat_api.py's extract_final_response.

## Findings

| source | as written | input that shows it | evidently intended | confidence | as-written member | corrected member |
|---|---|---|---|---|---|---|
| api_server.py:130-133 | the upload route passes "ANALYZE_IMAGE: " + tmp_path straight to the image tool, which tries to open that whole string as a file | any valid upload, e.g. image "data:image/png;base64,AAAA" saved to "uploads/mammogram_1.png": the tool cannot open "ANALYZE_IMAGE: uploads/mammogram_1.png" and the route answers 500 "Image analysis failed: Unable to open image: ..." | hand the saved path itself to the image tool, so the upload is scored, explained and saved | not executed | ApiServer.AsWrittenUploadFails | ApiServer.FixedUploadSucceeds |
