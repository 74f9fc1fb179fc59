# HuggingChat persona solvers, modelled in Dafny

This project models the core of `ovos-solver-plugin-hugchat-persona`, a set of
question solvers for the OpenVoiceOS assistant that answer through a
HuggingChat session. It covers five parts:

- **Model selection** at start-up (`_select_model`, `engines.py`). The catalog
  names are lower-cased. The configured `model` string picks a preferred
  index by substring match. Then `switch_llm` is called on one candidate
  after another until one call succeeds.
- **The answer sanitiser.** It strips the reply and rejects one that is
  empty, only `?` or only `_`. In history mode it first cuts the reply at
  the first hallucinated `Human: ` or `AI: ` turn.
- **The streaming segmenter** `stream_utterances`. It turns a stream of
  reply chunks into spoken utterances, closing one at every chunk that ends
  in `.`, `!`, `?`, a line break or `:`.
- **The persona solver** (`__init__.py`). It builds a fixed instruction
  template that names a persona, followed by the utterance.
- **The history solver** (`prompts.py`). It remembers accepted
  (question, answer) pairs. It renders the most recent `max_utts` of them as
  `Human:`/`AI:` lines under a header, and asks the new question as the
  next `Human:` turn.

The project has these modules:

- `Wrappers`: `Option` and `Result`.
- `Text`: the Python string operations the solvers use (`strip`, `in`,
  `endswith`, `split(sep)[0]`, `join`, `lower`), as functions on `string`,
  with their laws.
- `ModelSelection`, `Sanitizer`, `Segmenter`, `Persona` and `History`, one
  per part above.

How each piece is modelled:

- `_select_model` and the generator loop are imperative methods. Each is
  proved equal to a specification function, and the properties are lemmas
  about that function.
- The HuggingChat service is a parameter. Model selection takes an oracle
  `accepts(k, i)`: does the `k`-th `switch_llm` call, made on catalog index
  `i`, succeed? The answer methods take the reply text `response`.
- `HuggingChatPersonaPromptSolver` updates its fields in place, so it is a
  class. `qaPairs`, `currentQ` and `currentA` are its mutable fields, and
  its methods state the whole new state.
- `HuggingChatPersonaSolver` only holds its configuration, so it is a
  datatype with member functions.

Each point below is a behaviour one would expect from the code's names,
comments and error paths, set against what the code actually does. The model
follows the code throughout:

- Matching the configured model against lower-cased catalog names suggests
  a case-insensitive match. But only the catalog is lower-cased, never the
  configured string (`ModelSelection.UpperCaseEngineNeverMatches`).
- The "models left to try" loop and its `RuntimeError` at engines.py:60
  suggest that every candidate is tried once and that the error is raised
  when none works. In fact the code never tries the last index left in
  `models_ids`, and the raise cannot be reached. See Findings.
- Clearing the stream accumulator could be read as happening only when an
  utterance is yielded. In fact the code clears it at every terminating
  chunk, blank or not (`Segmenter.BlankPieceDropped`,
  `Segmenter.ResidualAfterTerminator`).
- `memory_size` reads like a cap on the remembered turns. In fact the code
  never shortens `qa_pairs`; it only renders the last `max_utts` of them
  (`History.WindowSlides`).
- The persona is inserted once into the prompt. It can still occur more
  than once in the result when its text also occurs in the fixed template.
  What holds is that the prompt determines both the persona and the
  utterance (`Persona.PromptDeterminesPersona`,
  `Persona.PromptDeterminesUtterance`).

## Model

| member | source | states |
|---|---|---|
| ModelSelection.LowerCatalog | ovos_solver_hugchat_persona/engines.py:34-36 | the catalog has one name per model, each lower-cased character by character |
| ModelSelection.DefaultEngine | ovos_solver_hugchat_persona/engines.py:37 | fails exactly on an empty catalog, even when `model` is configured; otherwise the configured model, else the first name |
| ModelSelection.FirstMatch | ovos_solver_hugchat_persona/engines.py:45-49 | the result is the first index whose name contains the engine string; no earlier name contains it; `None` only when no name does |
| ModelSelection.PreferredCandidate | ovos_solver_hugchat_persona/engines.py:43-49 | the matching loop leaves `model_id` at the first match (else 0) and `models_ids` as `range(n)` without that index |
| ModelSelection.InitialIds | ovos_solver_hugchat_persona/engines.py:44-48 | `list(range(n))` with the matched index deleted; its contents, order and length are stated by `InitialIdsSpec` |
| ModelSelection.InitialIdsSpec | ovos_solver_hugchat_persona/engines.py:44-48 | `models_ids` is strictly ascending, holds every index but the matched one, and has n-1 entries after a match, n otherwise |
| ModelSelection.SelectModel | ovos_solver_hugchat_persona/engines.py:41-62 | the try/pop loop calls `switch_llm` on exactly the indices of the specification walk, and ends on the model that walk selects |
| ModelSelection.Order | ovos_solver_hugchat_persona/engines.py:43-62 | the indices `switch_llm` is called on, in call order, when every call fails; characterised by `OrderSpec`, `AscendingAfterPreferred` and `LastCandidateNotInOrder` |
| ModelSelection.SelectFrom | ovos_solver_hugchat_persona/engines.py:51-62 | the try/pop walk over a candidate order from position `k`; characterised by `SelectFromSpec` |
| ModelSelection.Select | ovos_solver_hugchat_persona/engines.py:41-62 | `_select_model` on a catalog and an engine string: the walk over `Order`; `SelectModel` is proved to compute it, and `StopsAtFirstSuccess`, `AllFailuresReturnQuietly` and `LastCandidateNeverTried` state its outcomes |
| ModelSelection.SelectFromSpec | ovos_solver_hugchat_persona/engines.py:51-62 | the walk tries consecutive candidates in order; every call but the last failed; a model is selected iff the last call succeeded, and it is the last index tried; no model means every candidate was tried |
| ModelSelection.OrderSpec | ovos_solver_hugchat_persona/engines.py:43-62 | the candidates are the preferred index (first match, else 0), then `models_ids` from the front, one fewer than `models_ids` holds |
| ModelSelection.AscendingAfterPreferred | ovos_solver_hugchat_persona/engines.py:44-62 | after the preferred index, candidates come in strictly ascending catalog order, each the smallest still waiting |
| ModelSelection.NoMatchRetriesZero | ovos_solver_hugchat_persona/engines.py:43-62 | with no name matching, index 0 is tried twice and the order is 0, 0, 1, ..., n-2 |
| ModelSelection.LastCandidateNotInOrder | ovos_solver_hugchat_persona/engines.py:51-62 | with two or more names, the last index of `models_ids` is missing from the candidates; every other index is among them |
| ModelSelection.LastCandidateNeverTried | ovos_solver_hugchat_persona/engines.py:51-62 | whatever the service answers, `switch_llm` is never called on the last index of `models_ids` |
| ModelSelection.AllFailuresReturnQuietly | ovos_solver_hugchat_persona/engines.py:56-62 | when every call fails, all candidates are tried and selection ends with no model and no error |
| ModelSelection.SingleMatchNoSwitch | ovos_solver_hugchat_persona/engines.py:44-51 | a one-name catalog that matches makes no `switch_llm` call at all |
| ModelSelection.StopsAtFirstSuccess | ovos_solver_hugchat_persona/engines.py:52-55 | a call that succeeds on candidate k ends the walk with a model, after at most k+1 calls on a prefix of the candidates |
| ModelSelection.UpperCaseEngineNeverMatches | ovos_solver_hugchat_persona/engines.py:34-46 | an engine string holding an upper-case letter matches no name of the lower-cased catalog |
| ModelSelection.DefaultEngineStartsAtZero | ovos_solver_hugchat_persona/engines.py:37-49 | with no `model` configured the engine is the first name; it matches index 0, and the candidates are 0..n-2 in order |
| ModelSelection.MatchInMiddleOfThree | ovos_solver_hugchat_persona/engines.py:43-62 | of three names with only the second matching, index 1 is tried, then 0, and 2 never |
| ModelSelection.LlamaCatalogExample | ovos_solver_hugchat_persona/engines.py:41-62 | `llama-3` against `mixtral`, `llama-3-70b`, `yi` with every call failing: tries 1 then 0, never `yi`, and ends with no model |
| ModelSelection.OnlyLastUsableIsMissed | ovos_solver_hugchat_persona/engines.py:51-62 | when only the last index of `models_ids` would work, selection ends with no model |
| ModelSelection.SelectIntended | ovos_solver_hugchat_persona/engines.py:51-62 | the corrected selection either fails or returns a catalog index that is the first entry of the queue whose call succeeded, every earlier call having failed |
| ModelSelection.WalkPicksFirstSuccess | ovos_solver_hugchat_persona/engines.py:51-55 | a walk that selects a model selects the candidate of the first successful call, after failures on every earlier candidate |
| ModelSelection.IntendedQueueIsPermutation | ovos_solver_hugchat_persona/engines.py:44-49 | the corrected candidate queue holds every catalog index exactly once |
| ModelSelection.IntendedFailsOnlyAfterAll | ovos_solver_hugchat_persona/engines.py:56-60 | the corrected selection fails iff the call on every index of the queue failed |
| ModelSelection.IntendedFindsUsableModel | ovos_solver_hugchat_persona/engines.py:51-62 | a model whose calls always succeed is never missed by the corrected selection |
| Text.StripEmptyIff | ovos_solver_hugchat_persona/engines.py:104 | `s.strip(chars)` is empty exactly when every character of `s` is among `chars` |
| Text.BeforeFirst | ovos_solver_hugchat_persona/prompts.py:58 | `split(sep)[0]` is a prefix with no occurrence of `sep`, followed in the text by `sep` unless it is the whole text |
| Sanitizer.IsDegenerate | ovos_solver_hugchat_persona/engines.py:104 | the rejection test `not a or not a.strip("?") or not a.strip("_")`; `DegenerateIff` states what it means |
| Sanitizer.DegenerateIff | ovos_solver_hugchat_persona/engines.py:104 | the rejection test holds iff the answer is empty, only `?` or only `_` (a mix such as `?_` passes) |
| Sanitizer.Accept | ovos_solver_hugchat_persona/engines.py:104-106 | `None` iff the answer is empty, only `?` or only `_`; otherwise the answer unchanged |
| Sanitizer.Sanitize | ovos_solver_hugchat_persona/engines.py:102-106 | plain and persona-mode sanitising; `SanitizeSpec` gives its result for every reply and `SanitizeIdempotent` its idempotence |
| Sanitizer.Truncate | ovos_solver_hugchat_persona/prompts.py:58 | the reply cut before the first `Human: `, then before the first `AI: `, then stripped; `TruncateClean` and `CutAtNextTurn` state what it yields |
| Sanitizer.HistorySanitize | ovos_solver_hugchat_persona/prompts.py:58-60 | history-mode sanitising; `HistoryAnswerClean`, `NoMarkerSameAsPlain` and `HistoryDropsNextTurn` state what it accepts |
| Sanitizer.SanitizeSpec | ovos_solver_hugchat_persona/engines.py:102-106 | the reply is rejected iff its stripped text is empty, only `?` or only `_`; otherwise the answer is the stripped text, with no whitespace at either end |
| Sanitizer.SanitizedIsPieceOfResponse | ovos_solver_hugchat_persona/engines.py:103 | an accepted answer is a contiguous piece of the reply |
| Sanitizer.SanitizeIdempotent | ovos_solver_hugchat_persona/engines.py:103-106 | sanitising an accepted answer again returns it unchanged |
| Sanitizer.SanitizeRejectsExamples | ovos_solver_hugchat_persona/engines.py:103-105 | `""`, `"???"` and `"___"` are rejected |
| Sanitizer.SanitizeStripsExample | ovos_solver_hugchat_persona/engines.py:103-106 | `"  Paris  "` gives `"Paris"` |
| Sanitizer.SanitizeKeepsMixedExample | ovos_solver_hugchat_persona/engines.py:103-106 | `" ?_ "` gives `"?_"`: a mix of the filler characters is kept |
| Sanitizer.CutHasNoMarkers | ovos_solver_hugchat_persona/prompts.py:58 | after both cuts the reply holds neither `Human: ` nor `AI: ` |
| Sanitizer.TruncateClean | ovos_solver_hugchat_persona/prompts.py:58 | the truncated reply holds neither marker and has no whitespace at either end |
| Sanitizer.HistoryAnswerClean | ovos_solver_hugchat_persona/prompts.py:58-60 | every answer history mode accepts is non-empty, stripped, not filler-only and free of both markers |
| Sanitizer.NoMarkerSameAsPlain | ovos_solver_hugchat_persona/prompts.py:58-60 | a reply without either marker is sanitised the same way in history mode and in plain mode |
| Sanitizer.CutAtNextTurn | ovos_solver_hugchat_persona/prompts.py:58 | a reply whose second line opens a `Human: ` turn is cut to its first line |
| Sanitizer.HistoryDropsNextTurn | ovos_solver_hugchat_persona/prompts.py:58-60 | history mode returns a clean first line and drops a hallucinated `Human: ` turn after it |
| Segmenter.NonBlank | ovos_solver_hugchat_persona/engines.py:114-115 | the kept pieces are exactly the non-blank input pieces: each kept one is a non-blank input piece, every non-blank input piece is kept, and none is added |
| Segmenter.KeptPositions | ovos_solver_hugchat_persona/engines.py:114-115 | the positions of the non-blank pieces; `NonBlankKeepsOrder` states that they rise strictly and pick out the kept pieces |
| Segmenter.NonBlankKeepsOrder | ovos_solver_hugchat_persona/engines.py:114-115 | the `k`-th kept piece is the piece at the `k`-th kept position; these positions rise strictly; and every non-blank position is among them, so the filter keeps arrival order and skips nothing |
| Segmenter.KeptPicksPieces | ovos_solver_hugchat_persona/engines.py:114-115 | the kept positions rise strictly and point at the kept pieces, one position per kept piece |
| Segmenter.KeptComplete | ovos_solver_hugchat_persona/engines.py:114-115 | every position holding a non-blank piece is a kept position |
| Segmenter.Residual | ovos_solver_hugchat_persona/engines.py:110-116 | the accumulator once the chunks are consumed; `ResidualIsLastRun`, `NoTerminatorInResidual` and `ResidualAfterTerminator` characterise it |
| Segmenter.Pieces | ovos_solver_hugchat_persona/engines.py:110-116 | the accumulator at each terminating chunk, blank or not; `PiecesTileStream`, `PiecesAreChunkRuns` and `PiecesEndWithTerminator` characterise it |
| Segmenter.Utterances | ovos_solver_hugchat_persona/engines.py:109-116 | what the generator yields; `StreamUtterances` is proved to compute it, and `UtterancesAreOrderedRuns` and `UtterancesShape` state what it holds |
| Segmenter.StreamUtterances | ovos_solver_hugchat_persona/engines.py:109-116 | the generator loop yields exactly the specification's utterances for the chunk stream |
| Segmenter.PiecesEndWithTerminator | ovos_solver_hugchat_persona/engines.py:113-115 | every closed piece is non-empty and ends with `.`, `!`, `?`, line break or `:` |
| Segmenter.UtterancesShape | ovos_solver_hugchat_persona/engines.py:113-115 | every yielded utterance has a non-whitespace character and ends with a terminator |
| Segmenter.PiecesTileStream | ovos_solver_hugchat_persona/engines.py:110-116 | the closed pieces followed by the unflushed rest give back the whole reply: nothing lost, duplicated or reordered |
| Segmenter.Bounds | ovos_solver_hugchat_persona/engines.py:110-116 | the chunk positions where pieces start and end rise strictly from 0 and stay within the stream |
| Segmenter.PiecesAreChunkRuns | ovos_solver_hugchat_persona/engines.py:111-116 | each piece is the concatenation of a consecutive run of chunks between two bounds |
| Segmenter.UtterancesAreOrderedRuns | ovos_solver_hugchat_persona/engines.py:110-116 | utterance `k` is the run of chunks of the `k`-th non-blank piece; these pieces come in strictly rising order; no non-blank piece is skipped. So the yielded utterances are disjoint chunk runs in arrival order |
| Segmenter.ResidualIsLastRun | ovos_solver_hugchat_persona/engines.py:111-116 | the unflushed rest is the concatenation of the chunks after the last bound |
| Segmenter.PiecesEndAtTerminators | ovos_solver_hugchat_persona/engines.py:113-116 | each run of a piece ends with a terminating chunk |
| Segmenter.NoTerminatorInsidePieces | ovos_solver_hugchat_persona/engines.py:113 | no chunk before the end of a piece's run terminates |
| Segmenter.NoTerminatorInResidual | ovos_solver_hugchat_persona/engines.py:113-116 | no chunk of the unflushed rest terminates |
| Segmenter.ResidualAfterTerminator | ovos_solver_hugchat_persona/engines.py:116 | after a terminating chunk the accumulator restarts empty, blank piece or not |
| Segmenter.PiecesAfterTerminator | ovos_solver_hugchat_persona/engines.py:111-116 | after a terminating chunk the rest of the stream is cut as a stream of its own |
| Segmenter.UtterancesAfterTerminator | ovos_solver_hugchat_persona/engines.py:111-116 | the utterances of a stream split after a terminating chunk are those of each part, in order |
| Segmenter.NonBlankAppend | ovos_solver_hugchat_persona/engines.py:114-115 | the blank filter distributes over concatenation |
| Segmenter.TwoChunks | ovos_solver_hugchat_persona/engines.py:111-116 | an open chunk then a closing one give one utterance, their concatenation, unless blank |
| Segmenter.OneChunk | ovos_solver_hugchat_persona/engines.py:111-116 | one chunk yields itself iff it terminates and is not blank |
| Segmenter.TwoSentences | ovos_solver_hugchat_persona/engines.py:111-116 | two sentences of two chunks each are yielded whole and in order, unless blank |
| Segmenter.SentencesExample | ovos_solver_hugchat_persona/engines.py:109-116 | `Hello`, ` world.`, ` More`, ` text!` yields `Hello world.` then ` More text!` |
| Segmenter.UnterminatedExample | ovos_solver_hugchat_persona/engines.py:109-116 | an unterminated reply yields nothing: the trailing text is not flushed |
| Segmenter.BlankThenSentence | ovos_solver_hugchat_persona/engines.py:113-116 | a blank terminated chunk followed by a non-blank terminated one yields only the second |
| Segmenter.BlankPieceDropped | ovos_solver_hugchat_persona/engines.py:113-116 | a blank closed piece is dropped and does not leak into the next utterance |
| Persona.OrElse | ovos_solver_hugchat_persona/__init__.py:13 | Python `or` on an optional string: the value when present and non-empty, else the fallback |
| Persona.DefaultPersona | ovos_solver_hugchat_persona/__init__.py:10 | never empty: the configured persona when truthy, else the built-in one |
| Persona.NewPersonaSolver | ovos_solver_hugchat_persona/__init__.py:8-10 | keeps the configured persona; the default persona is the configured one when truthy, else the built-in text, and so never empty |
| Persona.PersonaSolver.ResolvePersona | ovos_solver_hugchat_persona/__init__.py:13 | `persona or config["persona"] or default_persona`; `ResolvePersonaChain` states its value in each case |
| Persona.PersonaSolver.Prompt | ovos_solver_hugchat_persona/__init__.py:12-22 | `get_prompt`; `PromptParts` gives its layout, and `PromptDeterminesPersona` and `PromptDeterminesUtterance` show the persona and the utterance can be read back from it |
| Persona.ResolvePersonaChain | ovos_solver_hugchat_persona/__init__.py:10-13 | the resolved persona is never empty: the argument if truthy, else the configured persona if truthy, else the built-in one |
| Persona.PromptParts | ovos_solver_hugchat_persona/__init__.py:12-22 | the prompt is the template, the persona, `.` and a blank line, the utterance and a line break; it ends with the utterance and a line break |
| Persona.PromptDeterminesUtterance | ovos_solver_hugchat_persona/__init__.py:12-22 | equal prompts under one persona mean equal utterances |
| Persona.PromptDeterminesPersona | ovos_solver_hugchat_persona/__init__.py:12-22 | equal prompts for one utterance mean equal resolved personas |
| Persona.PersonaSolver.SpokenAnswer | ovos_solver_hugchat_persona/__init__.py:25-33 | with the context's persona (else the default), the prompt is built as `get_prompt` does; the answer is rejected iff the stripped reply is empty, only `?` or only `_`, and is the stripped reply otherwise |
| Persona.PersonaSolver.SpokenAnswerAsWritten | ovos_solver_hugchat_persona/__init__.py:25-26 | every call fails with an unbound `context` |
| Persona.ContextIsUnbound | ovos_solver_hugchat_persona/__init__.py:25-28 | the method as written always fails on `context`; the corrected one always builds a prompt ending in the query |
| History.PySliceFrom | ovos_solver_hugchat_persona/prompts.py:20 | `xs[start:]` is a suffix of `xs`: a non-negative start drops that many elements, all of them past the end; a negative start keeps `-start` elements from the end, or all when the list is shorter |
| History.Window | ovos_solver_hugchat_persona/prompts.py:19-22 | the pairs `get_chat_history` renders; `WindowShape`, `WindowLast` and `WindowSlides` characterise it |
| History.Render | ovos_solver_hugchat_persona/prompts.py:34 | the pairs rendered as `Human:`/`AI:` lines joined by line breaks; `RenderSnoc` and `RenderInOrder` characterise it |
| History.Fixups | ovos_solver_hugchat_persona/prompts.py:35-38 | the two `endswith` repairs of `get_chat_history`; `ChatHistoryShape` proves that neither fires |
| History.ChatHistory | ovos_solver_hugchat_persona/prompts.py:18-40 | `get_chat_history`; `ChatHistoryShape` gives its layout and `HistoryEndsClean` its last character |
| History.PromptText | ovos_solver_hugchat_persona/prompts.py:45-49 | the history extended with the question turn; `PromptEndsWithQuestion` and `PromptOpensNewTurn` state what it ends with and which branch is taken |
| History.PersonaPromptSolver.ResolvePersona | ovos_solver_hugchat_persona/prompts.py:24 | `persona or config["persona"] or default_persona` in the history solver |
| History.PersonaPromptSolver.History | ovos_solver_hugchat_persona/prompts.py:18-40 | `get_chat_history` on the current pairs; it reads only `qa_pairs` and is `ChatHistory` of them |
| History.Remember | ovos_solver_hugchat_persona/prompts.py:61-62 | the pairs grow by exactly one, the question and the answer, iff memory is on and an answer was accepted; otherwise they are unchanged |
| History.PersonaPromptSolver.constructor | ovos_solver_hugchat_persona/prompts.py:7-16 | the model is forced to `llama-3`; memory defaults to on and 15 pairs; the pairs and the current question and answer start empty |
| History.PersonaPromptSolver.GetPrompt | ovos_solver_hugchat_persona/prompts.py:42-50 | clears the current question and answer and returns the history extended with the question turn |
| History.PersonaPromptSolver.SpokenAnswer | ovos_solver_hugchat_persona/prompts.py:53-63 | builds the prompt from the history before the call; the answer is the history-mode sanitisation of the reply; the pairs gain that pair iff memory is on and it was accepted; every stored answer stays clean |
| History.PersonaPromptSolver.SpokenAnswerAsWritten | ovos_solver_hugchat_persona/prompts.py:53-54 | every call fails with an unbound `context` |
| History.WindowShape | ovos_solver_hugchat_persona/prompts.py:19-22 | the rendered pairs are a suffix of the stored ones: the last `max_utts` for a positive size, all for size 0, all but the first `-max_utts` for a negative size |
| History.WindowLast | ovos_solver_hugchat_persona/prompts.py:19-22 | a non-empty window ends with the newest pair |
| History.WindowSlides | ovos_solver_hugchat_persona/prompts.py:19-22 | remembering a pair slides the window: the pair enters and the oldest leaves once it is full |
| History.RenderSnoc | ovos_solver_hugchat_persona/prompts.py:34 | rendering one more pair appends a line break and that pair |
| History.RenderInOrder | ovos_solver_hugchat_persona/prompts.py:34 | the pairs are rendered in insertion order, so the rendering ends with the newest answer |
| History.ChatHistoryShape | ovos_solver_hugchat_persona/prompts.py:32-40 | the two `endswith` fix-ups never fire; the history is the header, a blank line and the rendered window |
| History.PromptEndsWithQuestion | ovos_solver_hugchat_persona/prompts.py:46-49 | the prompt always ends with the question, `?`, and an open `AI:` turn |
| History.WindowLastClean | ovos_solver_hugchat_persona/prompts.py:19-22 | over clean stored pairs, the newest answer in a non-empty window is clean |
| History.EmptyWindowHistoryEnd | ovos_solver_hugchat_persona/prompts.py:32-40 | with an empty window the history ends with a line break |
| History.WindowHistoryEnd | ovos_solver_hugchat_persona/prompts.py:33-39 | with clean stored pairs and a non-empty window, the history does not end with a space |
| History.HistoryEndsClean | ovos_solver_hugchat_persona/prompts.py:18-40 | over clean stored pairs the history never ends with a space |
| History.PromptOpensNewTurn | ovos_solver_hugchat_persona/prompts.py:45-47 | over clean stored pairs the history never ends with an open `Human:` turn, so the question always opens a new one |
| History.EmptyMemoryPrompt | ovos_solver_hugchat_persona/prompts.py:42-47 | with nothing remembered the prompt is the header, a blank line, then the question as the first `Human:` turn |
| History.RememberKeepsClean | ovos_solver_hugchat_persona/prompts.py:58-62 | remembering what the history sanitiser returned keeps every stored answer clean; memory off never grows the list |

## Left out

- `_authenticate`, the cookie files and the `hugchat` transport (`chat`, `query`, `switch_llm`, `get_available_llm_models`) are not modelled. The catalog, the `switch_llm` outcome and the reply text are parameters.
- The streamed reply is a finite sequence of chunks. The generator's laziness and an endless stream are not modelled.
- `LOG` calls, the `__main__` demo, `setup.py` and `dialog_transformers.py` are not part of this model.
- The subclasses `CommandRPlus`, `Llama3` and the others only set `config["model"]`. They are covered by `DefaultEngine` with `model` present.
- `HuggingChatCompletionsSolver.__init__` is modelled only in part: the catalog, the default engine and model selection. The `email`/`password` checks, `web_search` and `initial_prompt` are not.
- History.PersonaPromptSolver.constructor: does not run the base-class start-up (catalog, authentication, model selection); `ModelSelection` models that part on its own.
- Text.IsSpace: whitespace is the fixed set of code points CPython's `str.isspace` accepts. No Unicode database is consulted.
- Text.Lower: `str.lower()` is modelled for the ASCII letters only.
- Configuration values are modelled as absent or of the expected type. A `model` or `persona` key holding `None` or a non-string, and the resulting Python `TypeError`s, are not modelled.
- Persona.PersonaSolver.SpokenAnswer: models the evidently meant behaviour, with the context persona and the reply as parameters, because the code as written raises before it sends a request (see Findings).
- History.PersonaPromptSolver.SpokenAnswer: the same, for the history solver.
- Plain `get_spoken_answer` (`engines.py:101-106`) sends the query itself. It is `Sanitizer.Sanitize` applied to the reply.

## Findings

| source | as written | input that shows it | evidently intended | confidence | as-written member | corrected member |
|---|---|---|---|---|---|---|
| ovos_solver_hugchat_persona/engines.py:51-62 | the loop tests `while models_ids` before each call, so after the last pop it exits without calling `switch_llm` on the popped index; the `raise` at line 60 can never run | catalog `mixtral`, `llama-3-70b`, `yi`, engine `llama-3`, only `yi` usable: indices 1 and 0 are tried, `yi` never, and no error is raised | try every catalog index once, starting from the preferred one, and raise when none can be activated | high, proved; not executed | ModelSelection.OnlyLastUsableIsMissed | ModelSelection.IntendedFindsUsableModel |
| ovos_solver_hugchat_persona/__init__.py:26 | `context = context or {}` reads a local that was never bound, so every call raises `UnboundLocalError` | any query | take the context from the call's keyword arguments, so the persona comes from the context or the default | high, proved; not executed | Persona.PersonaSolver.SpokenAnswerAsWritten | Persona.PersonaSolver.SpokenAnswer |
| ovos_solver_hugchat_persona/prompts.py:54 | the same unbound `context` in the history solver | any query | the same | high, proved; not executed | History.PersonaPromptSolver.SpokenAnswerAsWritten | History.PersonaPromptSolver.SpokenAnswer |
