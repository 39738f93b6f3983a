# GenAIComps megaservice orchestrator and LlamaGuard guardrail, in Dafny

This project models two pieces of GenAIComps.

The first is the `ServiceOrchestrator` of `comps/cores/mega/orchestrator.py`:
- the registry of microservices and the DAG of the services they flow to;
- the `schedule` loop that runs the DAG;
- the merge of predecessor answers (`process_outputs`);
- the request body `execute` posts;
- the server-sent-event framing (`extract_chunk_str`, `token_generator`, `fake_stream`);
- the sentence-buffering relay inside `execute.generate()`.

The second is the LlamaGuard guardrail of
`comps/guardrails/src/guardrails/integrations/llamaguard.py`:
- the hazard-category tables;
- the model-id fallback;
- the chat messages built from a document;
- the verdict parsed from the guard model's reply;
- the health check.

A last module ties the two together. The `.*` blacklist of a violation removes every outgoing edge of the guard node.

Files (one module each):
- `wrappers.dfy`: `Option` and `Result`.
- `text.dfy`: Python string operations the code relies on: `in`, `startswith`/`endswith`, `split`, `strip` with Python's white-space set.
- `json.dfy`: JSON values.
- `sse.dfy`: `extract_chunk_str`, `fake_stream`, and `token_generator` with its `\s?\S+\s?` tokeniser and `repr(bytes)` framing.
- `relay.dfy`: the buffering loop of `generate()`.
- `regex.dfy`: the regular-expression fragment used for blacklist patterns.
- `dag.dfy`: the DAG the orchestrator inherits: nodes in insertion order, and an ordered successor list per node.
- `orchestrator.dfy`: the class `ServiceOrchestrator` and the scheduling rules.
- `llamaguard.dfy`: the guardrail.
- `pipeline.dfy`: the two together.

How things are modelled:
- `schedule` is sequential. Completions are taken one at a time, in an order chosen by a function parameter, so every interleaving of `asyncio.wait` is covered.
- Each microservice's answer comes from a function parameter `exec` from node and request body to JSON answer.
- The guard model's reply to `invoke` and `check_health` is a parameter.
- The answer of `/v1/models` is a parameter.
- The environment override `SAFETY_GUARD_MODEL_ID` is an `Option` parameter of `LlamaGuard.GuardModel`.

Python exceptions are values:
- `Orchestrator.Fault` has `KeyError`, `TypeError` and `AttributeError`.
- `LlamaGuard.Failure` has `KeyError`, `TypeError` and `IndexError`.

A `Result` carries the exception instead of a value, wherever the source would raise.

## Model

| member | source | states |
|---|---|---|
| EventStream.ExtractChunk | comps/cores/mega/orchestrator.py:406-417 | the end-of-stream event gives ""; any other chunk gives a contiguous slice of it with at most 8 characters cut at the front and at most 3 at the back |
| EventStream.ExtractUnwrapped | comps/cores/mega/orchestrator.py:409-417 | a chunk with neither the `data: b'`/`data: b"` prefix nor the `'\n\n`/`"\n\n` suffix is returned unchanged |
| EventStream.ExtractWrapped | comps/cores/mega/orchestrator.py:409-417 | wrapping any text in either quote style and then extracting gives back the text |
| EventStream.FakeStream | comps/cores/mega/orchestrator.py:172-174 | two events: the first extracts back to exactly the text, the second is the end-of-stream event, which extracts to nothing |
| EventStream.FakeStreamRoundTrip | comps/cores/mega/orchestrator.py:172-174 | extracting both events of `fake_stream(text)` and concatenating them gives exactly `text` |
| EventStream.Utf8 | comps/cores/mega/orchestrator.py:426 | the UTF-8 encoding `str.encode` gives a character: its own code point as one byte for ASCII; otherwise 2 bytes below U+0800, 3 below U+10000 and 4 above, with a lead byte 0xC2-0xDF, 0xE0-0xEF or 0xF0-0xF4 followed by continuation bytes 0x80-0xBF, so never an overlong form |
| EventStream.Utf8RoundTrip | comps/cores/mega/orchestrator.py:426 | the payload bits of the encoding decode back to the character's scalar value |
| EventStream.ReplaceEscapedNewlines | comps/cores/mega/orchestrator.py:426 | after `.replace("\\n", "\n")` no backslash is followed by `n`; a token with no backslash-n pair is unchanged; the result is never longer, and its first character is the token's or the newline that replaced a leading pair |
| EventStream.ReplaceAroundPair | comps/cores/mega/orchestrator.py:426 | each backslash-`n` pair becomes one newline and the text on either side is replaced on its own (`R` is `ReplaceEscapedNewlines`): `R(a + "\\n" + b) == R(a) + "\n" + R(b)` |
| EventStream.ExtractTokenEvent | comps/cores/mega/orchestrator.py:424-427 | `extract_chunk_str` applied to a token event gives the body of its bytes literal |
| EventStream.ExtractPlainToken | comps/cores/mega/orchestrator.py:424-427 | for a token of printable ASCII other than the single quote and the backslash, the token event extracts back to the token itself |
| EventStream.TokensFrom | comps/cores/mega/orchestrator.py:422 | every token the scanner finds is a non-blank word with at most one white-space character on each side |
| EventStream.TokenCount | comps/cores/mega/orchestrator.py:422 | the tokeniser finds exactly one token per maximal run of non-white-space characters |
| EventStream.TokensCover | comps/cores/mega/orchestrator.py:422 | the tokens hold every non-white-space character of the sentence, in order, and no other |
| EventStream.TokenEventFramed | comps/cores/mega/orchestrator.py:425 | every event yielded for a token starts with `data: `, ends with a blank line and is never the end-of-stream event |
| EventStream.TokenGeneratorEvents | comps/cores/mega/orchestrator.py:419-428 | one `data: ...\n\n` event per non-white-space run, none of them the end event; the last event is `data: [DONE]\n\n` exactly when `is_last` |
| StreamRelay.RechunkInvariant | comps/cores/mega/orchestrator.py:303-338 | the posted texts followed by the buffer equal all extracted chunk text; the buffer never ends a sentence; every post ends a sentence or the stream; the number of final posts equals the number of `[DONE]` chunks |
| StreamRelay.FeedKeeps | comps/cores/mega/orchestrator.py:305-338 | an empty chunk changes nothing; otherwise its extracted text is added to the buffer, and a post happens exactly when the buffer then ends a sentence or the chunk ends with `[DONE]`, posting the whole buffer and emptying it (else the buffer just grows); posts plus buffer grow by exactly that text, the buffer never holds a sentence end, and one final post is added iff `c` ends with `[DONE]` |
| StreamRelay.StepKeeps | comps/cores/mega/orchestrator.py:310-338 | a post happens exactly when the buffer plus the text ends a sentence or the stream ends; it posts that whole buffer and empties it, and otherwise the text is only buffered; so no text is lost or duplicated and every post ends a sentence or the stream |
| StreamRelay.FeedExtends | comps/cores/mega/orchestrator.py:306-338 | a loop iteration only appends posts, it never alters earlier ones |
| StreamRelay.EmitAppend | comps/cores/mega/orchestrator.py:333-341 | after a successful history, one more post yields the re-tokenised `text` of its answer, with `[DONE]` iff the post was the last; an answer without a string `text` raises and yields nothing more |
| StreamRelay.RelayFakeStream | comps/cores/mega/orchestrator.py:303-338 | relaying a fake stream posts exactly its text, ends with a final post and leaves the buffer empty |
| StreamRelay.EmitFailedStays | comps/cores/mega/orchestrator.py:334-337 | once a downstream answer lacks `text` the generator has raised, and later flushes add nothing |
| StreamRelay.RechunkExtends | comps/cores/mega/orchestrator.py:305-338 | the posts of a prefix of the chunks are a prefix of the posts of all chunks |
| StreamRelay.Generate | comps/cores/mega/orchestrator.py:299-350 | the loop yields `Generated`: nothing for a falsy response, the non-empty chunks unchanged without a downstream, or each post's re-tokenised answer, stopping at the first answer without `text` |
| Regex.AnyStarFindsAll | comps/cores/mega/orchestrator.py:161 | the pattern `.*` finds a match in every service name |
| Regex.PlainPatternIsSubstring | comps/cores/mega/orchestrator.py:161 | a pattern without metacharacters finds a match exactly when it is a substring of the name |
| Orchestrator.MergedSemantics | comps/cores/mega/orchestrator.py:206-212 | the merge succeeds iff every predecessor has a JSON answer; its keys are the union of the predecessors' keys; on a collision the later predecessor's value wins |
| Orchestrator.MergedStaysErr | comps/cores/mega/orchestrator.py:209-211 | the first predecessor whose answer is missing or a stream ends the merge with its exception |
| Orchestrator.MergedAgree | comps/cores/mega/orchestrator.py:206-212 | the merge reads only the listed predecessors' results: two result maps that agree on them give the same merge |
| Orchestrator.StreamEvents | comps/cores/mega/orchestrator.py:172-178 | reading the fake stream of a string `text` gives two events, the first extracting back to the text and the second the end event; a non-string `text` raises `TypeError` |
| Orchestrator.ProcessOutputs | comps/cores/mega/orchestrator.py:206-212 | the `dict.update` loop computes `Merged`, including the `KeyError` for a missing predecessor and the `TypeError` for a stream |
| Orchestrator.OverrideLlmParams | comps/cores/mega/orchestrator.py:250-253 | the dict after the override loop is `Overridden(inputs, params)`: every LLM parameter is in it with its value, except a `None` parameter the inputs lack; inputs not among the parameters are kept |
| Orchestrator.OverriddenTwice | comps/cores/mega/orchestrator.py:250-253 | overriding inputs that were already overridden with the same parameters gives the same dict |
| Orchestrator.StripNulls | comps/cores/mega/orchestrator.py:359-362 | exactly the non-null fields remain, with their values |
| Orchestrator.RequestBody | comps/cores/mega/orchestrator.py:246-364 | the body posted by `execute`, equal to `Body`: an LLM/LVM node overrides the parameters of a dict input; a document input has its nulls stripped; a document input to an LLM/LVM node with parameters raises `AttributeError`, and only it |
| Orchestrator.BlacklistPatterns | comps/cores/mega/orchestrator.py:158-159 | no `downstream_black_list` key gives no pattern; a list gives its items; a string gives one pattern per character, as Python iterates over it; any other value raises `TypeError` |
| Orchestrator.KeepUnhit | comps/cores/mega/orchestrator.py:159-166 | the downstreams kept by one pattern are exactly those it does not match, still distinct |
| Orchestrator.SkipBlacklistedKeeps | comps/cores/mega/orchestrator.py:158-177 | after all patterns the kept downstreams are exactly those no pattern matches; a conversion to a fake stream only happens when none is left |
| Orchestrator.DropBlacklisted | comps/cores/mega/orchestrator.py:159-166 | the reversed scan deleting edges and list entries leaves the node's successors as the pattern's kept list, or raises `TypeError` for a non-string pattern |
| Orchestrator.SkipDownstreams | comps/cores/mega/orchestrator.py:155-177 | the blacklist loop changes only the completed node's successor list, to `Blacklisted`; it asks for the fake stream only when streaming, with no downstream left and a `text` in the answer |
| Orchestrator.ReadyAmong | comps/cores/mega/orchestrator.py:180-181 | the launched downstreams are exactly those whose every current predecessor has a result |
| Orchestrator.LaunchReady | comps/cores/mega/orchestrator.py:180-189 | the ready downstreams, in order, each with the merge of its predecessors' answers, which always succeeds |
| Orchestrator.SchedulingStarts | comps/cores/mega/orchestrator.py:138-146 | launching the independent nodes establishes the scheduling invariant, including that every node without predecessors is launched |
| Orchestrator.EdgesAfterCompletion | comps/cores/mega/orchestrator.py:155-166 | after a completion, the runtime graph still has exactly the original edges minus those blacklisted by completed nodes |
| Orchestrator.LaunchesAfterCompletion | comps/cores/mega/orchestrator.py:180-189 | a ready downstream was never launched before, so every node is launched at most once |
| Orchestrator.OrderAfterCompletion | comps/cores/mega/orchestrator.py:180-189 | every launch follows a kept edge from a completed node, after all its predecessors in the runtime graph completed |
| Orchestrator.ResultsAfterCompletion | comps/cores/mega/orchestrator.py:150-177 | every result is the node's answer, or the fake stream of its `text` once it has no downstream |
| Orchestrator.CompletionKeeps | comps/cores/mega/orchestrator.py:150-189 | one completion keeps the whole scheduling invariant |
| Orchestrator.CompletionUnblocked | comps/cores/mega/orchestrator.py:180-189 | after a completion, every node whose predecessors have all completed and kept their edges to it has been launched: the completed node's downstream loop launches it if that node is one of its predecessors |
| Orchestrator.SkipBlacklistedOk | comps/cores/mega/orchestrator.py:158-177 | a blacklist of string patterns never raises, provided a streaming answer whose blacklist is non-empty has a `text` |
| Orchestrator.CompletionSucceeds | comps/cores/mega/orchestrator.py:150-177 | when the inputs are a dict or there are no LLM parameters, and every answer has such a blacklist, any pending task's body can be built and its blacklist applied |
| Orchestrator.CompleteTask | comps/cores/mega/orchestrator.py:150-189 | one completion of the task at `idx`: a body that cannot be built fails with its exception; otherwise the answer is `exec(node, body)`, a blacklist that cannot be applied fails with its exception, and else the new progress keeps the other tasks, records the answer (or its fake stream), applies the blacklist to the runtime graph and appends one task per ready downstream carrying the merge of its predecessors; the scheduling and dataflow invariants are kept and the loop measure decreases |
| Orchestrator.LaunchNext | comps/cores/mega/orchestrator.py:150-189 | once the answer is recorded, the new progress is exactly the one `CompleteTask` promises, and the scheduling and dataflow invariants hold for it |
| Orchestrator.LaunchStable | comps/cores/mega/orchestrator.py:180-189 | a launched node's predecessors had all completed, so a later completion changes neither its in-edges nor the merge it was fed |
| Orchestrator.CompletionDataflow | comps/cores/mega/orchestrator.py:150-189 | one completion keeps the dataflow invariant: independent nodes fed `initial`, other launches fed their predecessors' merge, pending tasks carrying their launch inputs, and every reply equal to `exec` on the body built from those inputs |
| Orchestrator.Drain | comps/cores/mega/orchestrator.py:150-189 | the `while pending` loop ends with nothing pending and both invariants (so every unblocked node was launched), or with the first failing completion's exception; it cannot fail when `Succeeds` holds |
| Orchestrator.Prune | comps/cores/mega/orchestrator.py:190-199 | the pruned graph is the runtime graph restricted to the independent nodes and their downstreams |
| Orchestrator.PrunedRestrict | comps/cores/mega/orchestrator.py:190-199 | deleting, one node at a time in graph order, every node outside the kept set (skipping those already gone) yields the graph restricted to the kept set |
| Orchestrator.PrunedNodes | comps/cores/mega/orchestrator.py:190-199 | a node survives iff it is an independent node or reachable from one; an edge survives iff both its ends do |
| Orchestrator.FinalOutputs | comps/cores/mega/orchestrator.py:400-404 | the result of every leaf, keyed by leaf, or `KeyError` naming a leaf without a result |
| Orchestrator.TryAddEdge | comps/cores/mega/orchestrator.py:119-125 | an edge is added iff both services are nodes and the target does not already reach the source; the graph stays acyclic |
| Orchestrator.ServiceOrchestrator.constructor | comps/cores/mega/orchestrator.py:106-109 | no services, empty graph |
| Orchestrator.ServiceOrchestrator.Add | comps/cores/mega/orchestrator.py:111-117 | a new name is registered and becomes a node without edges; a known name raises and changes nothing |
| Orchestrator.ServiceOrchestrator.FlowTo | comps/cores/mega/orchestrator.py:119-125 | returns whether the edge was added; on failure the graph is unchanged |
| Orchestrator.ServiceOrchestrator.Schedule | comps/cores/mega/orchestrator.py:128-204 | in every completion order: edges kept except blacklisted ones; results recorded; every node launched at most once, only after its predecessors, and has a result exactly when launched; independent nodes are fed the initial inputs and every other node the merge of its predecessors' results; every reply is `exec` applied to the body built from the node's inputs; every node whose graph predecessors all completed and kept their edges to it has a result, so a run does not stop early; the returned graph is pruned to what the independent nodes reach; and the request succeeds whenever the inputs are a dict or there are no LLM parameters and every answer's blacklist is made of string patterns (with a `text` when streaming) |
| Dag.AddNodeIfNotExists | comps/cores/mega/orchestrator.py:114 | adds a node without edges when absent, otherwise changes nothing |
| Dag.DeleteEdge | comps/cores/mega/orchestrator.py:166 | removes exactly the one edge |
| Dag.Predecessors | comps/cores/mega/orchestrator.py:181 | exactly the nodes with an edge to the node |
| Dag.IndNodes | comps/cores/mega/orchestrator.py:141-146 | exactly the nodes without predecessors |
| Dag.AllLeaves | comps/cores/mega/orchestrator.py:402 | exactly the nodes without successors |
| Dag.ClosureLeast | comps/cores/mega/orchestrator.py:192 | `all_downstreams` is the least edge-closed set above the start |
| Dag.DeleteNodeValid | comps/cores/mega/orchestrator.py:199 | deleting a node removes it and every edge touching it |
| Dag.AddEdgeAcyclic | comps/cores/mega/orchestrator.py:121 | adding an edge whose target does not reach its source keeps the graph acyclic |
| Dag.AddNodeAcyclic | comps/cores/mega/orchestrator.py:114 | adding a node keeps the graph acyclic |
| LlamaGuard.UnsafeDict | comps/guardrails/src/guardrails/integrations/llamaguard.py:20-45 | LlamaGuard-7b has exactly the categories O1-O6; every other model has exactly S1-S11 |
| LlamaGuard.ServiceModelId | comps/guardrails/src/guardrails/integrations/llamaguard.py:48-61 | the `id` of the first listed model when `data` is a non-empty list whose first entry has an `id`; otherwise, including every exception, the default |
| LlamaGuard.GuardModel | comps/guardrails/src/guardrails/integrations/llamaguard.py:70-72 | the `SAFETY_GUARD_MODEL_ID` value when set; otherwise the id of the first model the endpoint lists, or the LlamaGuard-7b default when it lists none or the request fails |
| LlamaGuard.Messages | comps/guardrails/src/guardrails/integrations/llamaguard.py:103-106 | a generated document gives the user's prompt then the assistant's text; a text document gives one user message with its text |
| LlamaGuard.Invoke | comps/guardrails/src/guardrails/integrations/llamaguard.py:110-120 | a reply without `unsafe` passes the text through with no blacklist; an unsafe reply fails iff it has no second line or an unknown code, and otherwise gives the violation message and the `.*` blacklist |
| LlamaGuard.UnsafeReplyVerdict | comps/guardrails/src/guardrails/integrations/llamaguard.py:110-118 | an unsafe reply whose second line is a known code, with any blank padding, gives that category's violation message |
| LlamaGuard.OneLineUnsafeReply | comps/guardrails/src/guardrails/integrations/llamaguard.py:112 | an unsafe reply on one line raises `IndexError` |
| LlamaGuard.CheckHealth | comps/guardrails/src/guardrails/integrations/llamaguard.py:125-152 | healthy only when the chat client exists and the probe answered; then healthy exactly when `safe` occurs somewhere in the answer |
| LlamaGuard.UnsafeReplyIsHealthy | comps/guardrails/src/guardrails/integrations/llamaguard.py:137-152 | the health check's `safe` substring test accepts an `unsafe` reply too |
| Pipeline.ViolationHitsAll | comps/cores/mega/orchestrator.py:158-166 | the `.*` blacklist of a violation matches every downstream name |
| Pipeline.ViolationSkipsAll | comps/cores/mega/orchestrator.py:158-177 | after a violation no downstream is kept, and a streaming request gets the fake stream of the message |
| Pipeline.AllHitKeepsNone | comps/cores/mega/orchestrator.py:159-166 | a pattern matching every downstream keeps none |
| Pipeline.PassSkipsNone | comps/guardrails/src/guardrails/integrations/llamaguard.py:119-120 | a passed document keeps every downstream and is not converted |
| Pipeline.UnsafeReplyBlocks | comps/guardrails/src/guardrails/integrations/llamaguard.py:110-118 | any unsafe reply that parses removes every downstream of the guard |
| Pipeline.GuardCutsDownstreams | comps/cores/mega/orchestrator.py:155-166 | in a schedule, no edge leaves a guard node that answered with a violation |

## Left out

- Concurrency: `asyncio` tasks, `asyncio.wait` and `asyncio.to_thread` are replaced by one completion at a time in an arbitrary order.
- HTTP: aiohttp sessions, `requests.post`, `JsonRequestsWrapper`, `ChatOpenAI`, timeouts, proxies, endpoints and API keys. Answers are parameters.
- `OrchestratorMetrics`, Prometheus, `time.monotonic`, OpenTelemetry spans, logging, and the environment reads other than `SAFETY_GUARD_MODEL_ID` (the endpoint, `LOGFLAG`): none of them affects a modelled result. `SAFETY_GUARD_MODEL_ID` chooses the guard model, and is the `envModelId` parameter of `LlamaGuard.GuardModel`.
- `wrap_iterable` and the `align_inputs`/`align_outputs`/`align_generator` hooks are identities in this class and are not modelled.
- StreamRelay.Generate: chunks are modelled as already-decoded strings. In the source each chunk of `iter_content(chunk_size=None)` is decoded with `chunk.decode("utf-8")`, and a chunk that splits a multi-byte character raises `UnicodeDecodeError`, which ends the generator. The model does not capture that failure.
- Orchestrator.ServiceOrchestrator.Schedule: the streaming branch of `execute` is not run inside the schedule. That branch makes an LLM/LVM node return a `StreamingResponse` filed under its single downstream. Every node answers with JSON through `exec`. That branch's relay is modelled on its own by `StreamRelay.Generate`.
- Orchestrator.ServiceOrchestrator.Schedule: each independent node gets its own copy of the initial inputs. In the source every independent node is handed the same `initial_inputs` object (orchestrator.py:139-145), and an LLM/LVM node's override writes the parameters into it in place (orchestrator.py:250-253). The override is idempotent (`OverriddenTwice`), so other independent LLM/LVM nodes see the same body either way. What is lost: a non-LLM independent node that starts after such an override posts the initial inputs plus the LLM parameters, while `RepliesAnswered` gives it `exec(n, Body(initial, false, params))`, the initial inputs alone.
- Orchestrator.ServiceOrchestrator.Schedule: the audio/wav branch of `execute` is not modelled. Answers are JSON objects.
- Orchestrator.OverrideLlmParams: Python's equality across JSON types (`True == 1`) is not modelled. Values of different kinds always differ here.
- Orchestrator.BlacklistPatterns: a JSON object used as a blacklist gives `TypeError` here. Python would iterate over its keys.
- Regex.FindsMatch: only literals, `.` and `*` are interpreted. Any other metacharacter, the backslash included, makes the pattern count as invalid, which the source logs and skips.
- The numbers in JSON values are integers. Floating-point parameters only take part in equality tests, so they are not modelled.
- The DAG base class is not part of the source shown. `Dag` is a stand-in: nodes in insertion order, and successor lists in insertion order. Its `add_edge` refuses unknown nodes and edges that would close a cycle.
- LlamaGuard: the one-time construction of the chat client and the logging of a failed health check are left out.
- LlamaGuard.Messages and Pipeline.VerdictReply: the other fields of the `TextDoc` returned by `invoke` are not modelled, only `text` and `downstream_black_list`.
