# Citation grounding for a multi-agent RAG service, in Dafny

The service answers questions about indexed PDF documents with three LLM
agents: retrieval, summarisation and verification. Around those agents sits
a small amount of deterministic code. This project models that code and proves
properties of it:

- **Chunk serialisation.** Retrieved document chunks are numbered `[C1]..[Cn]`
  by position. They become a context string (`[Ci] (Page p)\n<content>` blocks
  separated by blank lines) and a citation map `Ci -> {page, source, snippet}`.
  The older `Chunk i (page=p):` layout is modelled as well.
- **Citation enforcement.** Text is split into sentences after `.`, `!` or `?`
  followed by whitespace. Sentences that already hold a `[C<digits>]` token are
  kept. The rest are judged "factual" by a fixed heuristic: a digit, one of
  nine assertive verbs, or more than five words. A factual sentence gets the
  context's first identifier appended. One engine (`Enforcement`) is
  parameterised by a `Policy` and covers three configurations:
  - the inner pass on the verifier's reply (verbs matched case-sensitively,
    only a trailing `.` dropped);
  - the outer pass at the service boundary (verbs matched case-blind, `.`, `!`
    or `?` dropped);
  - the forced fallback (more than three words, nothing else).
- **Response assembly.** The `/qa` endpoint rejects a blank question. It hides
  context and citations when the answer is exactly the no-answer sentence, and
  otherwise passes the service's result through.

Strings are `seq<char>`. Python's `strip()`, `split()`, `in` and `sep.join`,
and `str.isspace()`, are written out by hand in `Text`. So are the three
regular expressions the code uses:
- `\[C(\d+)\]` in `Citations`;
- `(?<=[.!?])\s+` in `Sentences`;
- `\b(is|are|...|requires)\b`, with and without `re.IGNORECASE`, in
  `Enforcement` (`HasVerb`, `WordAt`).

The imperative code keeps its form:
- the sentence loop, the serialisation loops and the message scans are
  `method`s with loop invariants;
- the sentence loop and the serialisation loops are proved against a
  specification function (`Enforced`, `Blocks`, `ChunkBlocks`) or a predicate
  (`Serializes`);
- `RetrievalNode` is proved against the function `LastTool`;
- `ExtractLastAiContent` states its result directly: the content of an AI
  message after which no AI message follows, or `""` when there is none;
- the service's in-place update of its result dictionary is the module-level
  method `AnswerQuestion`, which takes a `QaResult` object and may modify only
  its `answer` field.

Modules: `Wrappers` (Option), `Text`, `Citations`, `Sentences`, `Enforcement`,
`Serialization`, `Agents`, `QaService`, `Api`.

## Model

| member | source | states |
|---|---|---|
| Text.Strip | src/app/core/agents/agents.py:67 | `strip()`: the result has no outer whitespace; `StripSlice` shows it stands in the text with only whitespace around it, `StripEmpty` when it is empty |
| Text.StripSlice | src/app/api.py:73 | what `strip()` removes is whitespace: the result is the slice of the text at the returned offset, with only whitespace before and after it |
| Text.StripEmpty | src/app/api.py:73-74 | a question strips to the empty string exactly when it is all whitespace |
| Text.WordCount | src/app/core/agents/agents.py:81 | definition of `len(s.split())` as the number of maximal whitespace-free runs; `WordCountZero` characterises its zero case, `WordCountAppend` and `WordCountJoin` how it adds up over a concatenation |
| Text.WordCountZero | src/app/core/agents/agents.py:81 | `split()` yields no word exactly when the text is all whitespace |
| Text.WordCountAppend | src/app/core/agents/agents.py:81 | the word count of `x + y` is the sum of the counts, less one exactly when `x` ends and `y` starts with a non-whitespace character |
| Text.WordCountJoin | src/app/services/qa_service.py:99 | texts joined by a space have as many words as the two together: `len((x + " " + y).split()) == len(x.split()) + len(y.split())` |
| Citations.TokenAt | src/app/core/agents/agents.py:56 | definition: `\[C(\d+)\]` matches at an index; `TokenAtCites` and `OccurrenceIsMatch` show it matches exactly at the occurrences of a token |
| Citations.TokenAtCites | src/app/core/agents/agents.py:56 | a match is an occurrence of the token of its captured digits |
| Citations.OccurrenceIsMatch | src/app/core/agents/agents.py:56 | every occurrence of a token is a match whose captured digits are that token's |
| Citations.FindIdsFrom | src/app/core/agents/agents.py:56-57 | definition of the left-to-right scan of `re.findall` that resumes after each match; `FindIdsFromSound`, `FindIdsFromComplete` and `FindIdsFromLeftmost` characterise it |
| Citations.FindIdsFromSound | src/app/core/agents/agents.py:56-57 | every identifier found is cited by the text |
| Citations.FindIdsFromComplete | src/app/core/agents/agents.py:56-57 | no match is missed, and nothing is found exactly when there is no match |
| Citations.FindIdsFromLeftmost | src/app/core/agents/agents.py:56-57 | the first identifier found is that of the leftmost match |
| Citations.FindIds | src/app/core/agents/agents.py:56-57 | `re.findall(r'\[C(\d+)\]', s)` holds exactly the identifiers `d` for which `[C<d>]` occurs in `s` |
| Citations.FirstId | src/app/core/agents/agents.py:57-60 | the first found identifier is cited by the text; there is none exactly when the text has no token |
| Citations.FirstIdIsLeftmost | src/app/core/agents/agents.py:56-57 | the first found identifier is that of the leftmost match of `\[C(\d+)\]`: no match starts before it |
| Citations.FirstIdAtStart | src/app/core/agents/agents.py:90 | a text opening with a token has that token's identifier first |
| Sentences.SplitSentences | src/app/core/agents/agents.py:63 | definition of `re.split(r'(?<=[.!?])\s+', t)`; `SplitRoundTrip`, `SplitPiecesAreSentences` and `SplitPiecesAreSubstrings` characterise it |
| Sentences.SplitRoundTrip | src/app/core/agents/agents.py:63 | the split loses only whitespace: non-empty all-whitespace separators put back between the pieces give the text again |
| Sentences.SplitPiecesAreSentences | src/app/core/agents/agents.py:63 | the split is maximal: no piece holds a terminator followed by whitespace, and every piece but the last ends with a terminator |
| Sentences.SplitPiecesAreSubstrings | src/app/core/agents/agents.py:63 | every piece of the split occurs in the text |
| Sentences.Kept | src/app/core/agents/agents.py:66-69 | the pieces stripped, with the empty ones skipped, in order; each kept sentence is stripped and non-empty |
| Sentences.Fragments | src/app/core/agents/agents.py:63-69 | the sentences the passes see: each is non-empty and stripped; `FragmentsAreSplit` and `FragmentsAreSubstrings` characterise them |
| Sentences.FragmentsAreSplit | src/app/core/agents/agents.py:63-69 | the kept sentences are exactly the pieces of the split of the stripped answer; there are none exactly when the answer strips to nothing |
| Sentences.FragmentsAreSubstrings | src/app/core/agents/agents.py:63-69 | every kept sentence occurs in the answer |
| Sentences.FragmentsOfTwo | src/app/core/agents/agents.py:63-69 | a sentence ending in a terminator, a space and a second sentence split into exactly those two |
| Enforcement.WordAt | src/app/core/agents/agents.py:80 | definition: `\b<verb>\b` matches at an index, with ASCII word characters, comparing case-blind when asked |
| Enforcement.HasVerb | src/app/services/qa_service.py:48 | definition: one of the nine listed verbs occurs as a whole word somewhere; `CaseBlindAcceptsMore` relates the two modes |
| Enforcement.IsFactual | src/app/services/qa_service.py:46-50 | definition of the two factuality rules: a digit, a listed verb or more than five words (agents.py:78-82, qa_service.py:46-50); more than three words alone for the fallback (qa_service.py:99) |
| Enforcement.CaseBlindAcceptsMore | src/app/services/qa_service.py:46-50 | the case-blind verb test accepts every sentence the case-sensitive one (agents.py:78-82) accepts, so the outer pass judges factual at least what the inner pass does |
| Enforcement.DropTerminator | src/app/core/agents/agents.py:87-88 | the result is the sentence, or the sentence less one trailing character from the dropped set; either way a substring of it |
| Enforcement.Rewrite | src/app/core/agents/agents.py:71-93 | a sentence that cites, or is not factual, is kept unchanged |
| Enforcement.RewriteCitesOnlyId | src/app/core/agents/agents.py:85-91 | an uncited factual sentence becomes the sentence less its terminator plus ` [C<id>].`, and it then cites `id` and nothing else |
| Enforcement.RewriteCovers | src/app/core/agents/agents.py:71-93 | after the rewrite, a sentence that was cited or factual cites something |
| Enforcement.CorrectSentence | src/app/core/agents/agents.py:71-93 | one turn of the loop on a stripped non-empty sentence computes `Rewrite`: cited or non-factual sentences kept, factual ones cited |
| Enforcement.Enforced | src/app/core/agents/agents.py:52-95 | definition of one pass; `EnforcedVocabulary`, `EnforcedCoverage`, `CitedAnswerKept` and `EmptyAnswerEnforced` characterise it |
| Enforcement.CorrectSentences | src/app/core/agents/agents.py:63-95 | the loop's output is the single-space join, in order, of every kept sentence rewritten |
| Enforcement.Enforce | src/app/core/agents/agents.py:38-95 | an answer holding the no-answer marker is returned unchanged; so is any answer against a context with no `[C<digits>]` token; otherwise the output is the rewritten sentences with the context's first identifier |
| Enforcement.PassVocabulary | src/app/core/agents/agents.py:66-95 | whatever the rewriting loop's output cites, its input cited already or it is the appended identifier |
| Enforcement.EnforcedVocabulary | src/app/core/agents/agents.py:56-95 | a pass never invents an identifier: whatever its output cites, the answer cited already or it is the context's first identifier |
| Enforcement.EnforcedCoverage | src/app/core/agents/agents.py:71-93 | each cited or factual sentence comes out citing; each other sentence comes out unchanged |
| Enforcement.CitedAnswerKept | src/app/core/agents/agents.py:71-74 | an answer whose sentences all cite comes out as those sentences joined by single spaces |
| Enforcement.EmptyAnswerEnforced | src/app/services/qa_service.py:26-27 | the empty answer comes out empty from the pass even without the explicit guard |
| Enforcement.SingleFragment | src/app/core/agents/agents.py:63-69 | a stripped text with no boundary inside is its own only sentence |
| Enforcement.InnerPassNotIdempotent | src/app/core/agents/agents.py:85-95 | a factual uncited sentence ending in `!` or `?` gets ` [C<id>].` once, and a second pass appends it again: the pass is not idempotent |
| Enforcement.CitationSentence | src/app/core/agents/agents.py:90-91 | the appended `[C<id>].` is one stripped sentence that cites |
| Serialization.SerializeChunksWithIds | src/app/core/retrieval/serialization.py:40-64 | the context is the `[Ci] (Page p)\ncontent` blocks joined by blank lines; the map's keys are exactly `C1..Cn`; position `i` holds page, source (each `"unknown"` when missing) and snippet of the `i`-th document; there are `n` entries; no documents give `("", {})` |
| Serialization.ChunkIdInjective | src/app/core/retrieval/serialization.py:50 | different positions get different identifiers |
| Serialization.Snippet | src/app/core/retrieval/serialization.py:61 | definition of `page_content[:120] + "..."`; `SnippetBound` characterises it |
| Serialization.Block | src/app/core/retrieval/serialization.py:54-56 | definition of the `[Ci] (Page p)\ncontent` block; `ContextCitesEveryKey` and `FirstIdOfContext` characterise it |
| Serialization.SnippetBound | src/app/core/retrieval/serialization.py:61 | a snippet is a prefix of at most 120 characters followed by `...` |
| Serialization.MissingMetadataIsUnknown | src/app/core/retrieval/serialization.py:51-52 | a missing page or source becomes `"unknown"`, never an error |
| Serialization.ContextCitesEveryKey | src/app/core/retrieval/serialization.py:54-58 | the context cites the identifier of every map key |
| Serialization.FirstIdOfContext | src/app/core/retrieval/serialization.py:49-56 | the context of a non-empty list opens with `[C1]`, so the identifier the passes append is `1` |
| Serialization.ContentCanForgeToken | src/app/core/retrieval/serialization.py:54-56 | unescaped content can put a token such as `[C7]` into the context that no map key matches |
| Serialization.SerializeChunks | src/app/core/retrieval/serialization.py:8-36 | the output is the `Chunk i (page=p):\n<stripped content>` blocks, numbered from 1, joined by blank lines; no documents give `""` |
| Serialization.PageOf | src/app/core/retrieval/serialization.py:26-28 | definition of `get("page") or get("page_number", "unknown")`; `PageFallback` and `PageZeroFallsBack` characterise it |
| Serialization.ChunkBlock | src/app/core/retrieval/serialization.py:31-34 | definition of the `Chunk i (page=p):\n<stripped content>` block; `ChunkNumbering` characterises it |
| Serialization.PageFallback | src/app/core/retrieval/serialization.py:26-28 | a truthy `page` is shown; otherwise `page_number` if present, whatever its value; otherwise `unknown` |
| Serialization.PageZeroFallsBack | src/app/core/retrieval/serialization.py:26-28 | page 0 is falsy, so `page_number` is shown instead |
| Serialization.ChunkNumbering | src/app/core/retrieval/serialization.py:24-31 | block `i` opens with `Chunk <i+1> (page=`, and no two blocks share a number |
| Agents.ExtractLastAiContent | src/app/core/agents/agents.py:25-30 | the result is the content of the last AI message, or `""` when there is none |
| Agents.LastTool | src/app/core/agents/agents.py:139-146 | the index found is that of the last tool message; there is none exactly when no message is a tool message |
| Agents.RetrievalNode | src/app/core/agents/agents.py:137-168 | with no tool message, context `""` and an empty map; otherwise the serialisation of the last tool message's artifact (none when it has no artifact) |
| Agents.VerificationNode | src/app/core/agents/agents.py:279-288 | the answer is the inner pass applied to the verifier's reply and the state's context; citations pass through; the answer cites nothing outside the reply's own citations and the context's first identifier |
| Agents.RetrievedContextCitesFirstChunk | src/app/core/agents/agents.py:150-157 | after retrieval of at least one chunk, the only identifier the inner pass can add is `1` |
| QaService.EnforceCitationsOnAnswer | src/app/services/qa_service.py:19-57 | an empty answer, an answer with the marker, or a context without tokens (a missing context counts as empty) leaves the answer unchanged; otherwise the case-blind pass runs |
| QaService.FallbackId | src/app/services/qa_service.py:86-87 | the fallback identifier is the context's first identifier, or `1` when there is none |
| QaService.AnswerQuestion | src/app/services/qa_service.py:60-108 | the answer becomes the outer pass's output, and then the forced fallback's if that cites nothing; an absent, empty or no-answer answer is left alone; context and citations are unchanged |
| QaService.PostProcessed | src/app/services/qa_service.py:74-106 | definition of the answer the service hands back; `PostProcessedVocabulary`, `FallbackCitesSomething` and `BothTiersMissSentence` characterise it |
| QaService.PostProcessedVocabulary | src/app/services/qa_service.py:76-106 | the final answer cites only what the graph's answer cited, the context's first identifier, or `1` when the context has none |
| QaService.FallbackInventsId | src/app/services/qa_service.py:86-102 | against a context without tokens, an uncited sentence of more than three words comes back citing `[C1]`, which the context does not contain |
| QaService.ShortSentenceCitedByFallbackOnly | src/app/services/qa_service.py:76-106 | an uncited one-sentence answer of four or five words with no digit and no listed verb is left alone by both passes; only the fallback cites it |
| QaService.FallbackCitesSomething | src/app/services/qa_service.py:83-106 | for a non-empty answer without the marker, the final answer cites something as soon as one sentence of the outer pass's output has more than three words |
| QaService.BothTiersMissSentence | src/app/services/qa_service.py:83 | once the outer pass cites one sentence the fallback does not run, so a second uncited sentence of four or five words stays uncited |
| Api.QaEndpoint | src/app/api.py:71-98 | a blank question is rejected (400) and only a blank one; a reply without an answer ends in the catch-all 500; the answer is never altered; the exact no-answer sentence hides context and citations; any other answer passes them through |
| Api.BlankQuestionSkipsService | src/app/api.py:73-81 | a blank question's outcome does not depend on the service |
| Api.OnlyStrippedQuestionMatters | src/app/api.py:73-81 | the outcome depends only on the service's reply to the stripped question |
| Api.NoAnswerTextHoldsMarker | src/app/api.py:83 | the no-answer sentence contains the marker that both passes test for |
| Api.NoAnswerEndToEnd | src/app/api.py:86-91 | the no-answer sentence passes the inner pass, the outer pass and the fallback unchanged, and the endpoint returns it without context or citations |
| Api.MarkerWithoutExactSentence | src/app/api.py:86-98 | an answer that holds the marker but is not exactly the sentence is left alone by the service, yet keeps its context and citations |

## Where the code does less than its comments and prompts suggest

The model follows the code. Several expectations that the code's own
comments and prompts raise do not hold of the code, and the model proves
that:

- Running the safety net twice is not the same as running it once.
  `Enforcement.InnerPassNotIdempotent` shows `Data is good!` becoming
  `Data is good! [C2].` and then `Data is good! [C2]. [C2].`.
- The docstrings of the two passes (src/app/core/agents/agents.py:39-49,
  src/app/services/qa_service.py:20-24) say that every factual sentence gets a
  citation. The prompt's "Good:" example (src/app/core/agents/agents.py:208)
  treats `Vector databases enable similarity search.` as a factual sentence
  that needs `[C1]`. That sentence has five words, no digit and no listed
  verb, so both passes leave it alone. Only the forced fallback cites it
  (`QaService.ShortSentenceCitedByFallbackOnly`).
- The passes only append the context's first identifier
  (`Enforcement.EnforcedVocabulary`). The forced fallback's default `1` can
  cite `[C1]` against a context with no identifier
  (`QaService.FallbackInventsId`).
- The context string and the citation map are built from the same loop, but
  one cannot expect each bracketed token in the context to be a map key.
  Document text is not escaped (`Serialization.ContentCanForgeToken`). What
  holds is that the keys are exactly `C1..Cn` and that the context cites every
  key.
- The fallback appends the first identifier to every longer sentence
  (src/app/services/qa_service.py:88), but only when the outer pass's output
  cites nothing (line 83). So after both tiers a sentence of more than three
  words can still be uncited, when the first tier cited some other sentence
  (`QaService.BothTiersMissSentence`).
- The passes test for the no-answer marker as a substring. The endpoint tests
  for the exact sentence (`Api.MarkerWithoutExactSentence`).

## Left out

- The LLM and agent calls (the retrieval agent's invocation, the
  summarisation and verification chat calls) and the prompt texts. The
  verifier's reply and the retrieval agent's messages are parameters. The
  summarisation node is nothing but an LLM call and is not part of this model.
- `run_qa_flow`, the graph state, `retrieval_tool` and `index_pdf_file` are not
  part of this model. `QaService.AnswerQuestion` starts from the result object
  the graph returns, and `Api.QaEndpoint` takes the service as a function.
- Logging, the FastAPI application and CORS set-up, the root endpoint, the
  `/index-pdf` upload, and `async` execution.
- The result dictionary's other keys (question, draft answer) are not fields
  of `QaResult`. The frame of `QaService.AnswerQuestion` shows that only the
  answer changes.
- Python's Unicode character classes:
  - `\d` and `str.isdigit()` are modelled as ASCII `0-9`;
  - the `\b` word characters are modelled as ASCII letters, digits and `_`;
  - `re.IGNORECASE` is modelled as ASCII lower-casing.
  Whitespace (`\s`, `strip()`, `split()`) follows Python's full `str.isspace()`
  set.
- Metadata values are `None`, integers or strings. Floats and other types, and
  their formatting, are not modelled.
- `str(msg.content)` on non-string message content is not modelled: content is
  a string.
- Agents.VerificationNode: a context that is present in the graph state but
  set to `None` is treated as the empty context. In the source that case would
  raise inside `re.findall`.
- The citation map is a Dafny `map`, so the insertion order of the Python
  dictionary is not represented.
