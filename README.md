# Streaming core of the TensorRT-LLM chat controller, in Dafny

This project models the streaming layer of `cpp/tensorrt_llm/nitro/controllers/tensorrtllm.cc`,
the chat-completion controller of the nitro TensorRT-LLM server. The layer has two sides.
A generation thread (the producer) decodes the tokens produced so far and pushes the new text
onto a queue. The HTTP layer's chunk provider (the consumer) pops fragments, hides those that
belong to the ChatML end marker `<|im_end|>`, and writes each remaining fragment to the client as
one server-sent event.

The model has six modules. Five follow the components of that file; `Seqs` holds the sequence
helpers they share.

- `Seqs` (seqs.dfy): subsequence and concatenation helpers.
- `RemoveIds` (remove_id.dfy): `removeId`, the erase-remove of the padding id 0. It is an
  in-place compaction over an `array`, specified by the function `Without`.
- `StopWords` (stop_words.dfy): the stop sequence `"<","|","im","_","end","|",">"` and
  `handleMatch` as a transition function `Step` on a `Matcher` value. `Feed` runs `Step` over a
  stream of fragments. The lemmas give a sufficient and a necessary condition for a stream to
  complete the match. Sufficient: the seven pieces arrive consecutively, or, with no match open,
  a fragment containing '<' is followed by the other six pieces. Necessary: some fragment
  containing '<' is followed at once by the other six pieces. The two differ: a second '<' inside
  a longer fragment abandons an open match instead of restarting it, so the marker can go by
  unmatched (`SeenMarkerWithoutCompletion`).
- `Streaming` (streaming.dfy): what one producer step pushes (`Delta`), one pull of
  `chunked_content_provider` (`Pull`, with its pop loop `PopVisible`), and a fragment-by-fragment
  reference definition `Visible` of what the client receives. The lemmas cover FIFO order, the
  hidden marker, and end-to-end reassembly of the decoded text. `Interleaving` runs any schedule
  of pushes and pulls (`Run`, with one buffer size and one rendering for every pull) from a live
  session. While the session stays live, the events written are, in order, those of a prefix of
  the fragments `Visible` gives for everything pushed, and the rest is still due. Once a pull has
  finished it, a "[DONE]" was pushed, and the events written are those of all the fragments due,
  then the final payload, then only empty writes.
- `Inference` (inference_state.dfy): the class `InferenceState` with the fields of
  `inferenceState`. Its methods `Reset`, `HandleMatch`, `OnTokenGenerated` and
  `ChunkedContentProvider` change those fields in place. Each method is proved to follow the
  functions above. Its predicate `IsComplete` is `isComplete`; it agrees with `StopWords.IsComplete`
  on the matcher part of the state.
- `ChatCompletion` (chat_completion.dfy): the prompt-building loop of `chat_completion`, proved
  equal to a closed form. It also models the derived integers (`outputLen = max_tokens - inputLen`,
  seed 42, top-k 40) and the creation of the session state.

The model follows the code, which behaves as follows:

- The stop-sequence matcher runs in the consumer, on popped fragments (line 288), not in the producer.
- A complete matcher answers "emit" (line 51). Text after the end marker is therefore streamed;
  the matcher does not stop the stream.
- When a partial match breaks, the fragment that breaks it is emitted (lines 74-77). The earlier
  fragments of the partial match are the ones lost.
- On the final generation step the producer pushes the delta first and then `"[DONE]"`
  (lines 173-190). The matcher plays no part in that decision.
- An output length of 0 or less (`max_tokens` not above the prompt length) is not rejected. It
  is passed on as the minimum length (lines 250, 258).

The busy-wait on an empty queue (lines 280-320) is modelled as an outcome `WouldWait`. Fragments
that the pull has already popped and suppressed stay consumed. The loop does not re-check the
buffer or the finished flag, and neither changes while it spins, so calling the provider again
with the same buffer continues the same loop.

## Model

| member | source | states |
|---|---|---|
| `RemoveIds.Without` | cpp/tensorrt_llm/nitro/controllers/tensorrtllm.cc:19-22 | the result never holds `id`, holds every other value of the input, and is no longer than the input |
| `RemoveIds.WithoutCounts` | cpp/tensorrt_llm/nitro/controllers/tensorrtllm.cc:19-22 | every value other than `id` is kept as many times as it occurs; the length drops by the number of occurrences of `id` |
| `RemoveIds.WithoutIsSubsequence` | cpp/tensorrt_llm/nitro/controllers/tensorrtllm.cc:19-22 | the kept ids stay in their original order |
| `RemoveIds.WithoutAppend` | cpp/tensorrt_llm/nitro/controllers/tensorrtllm.cc:19-22 | removing from a concatenation removes from each part |
| `RemoveIds.WithoutIdempotent` | cpp/tensorrt_llm/nitro/controllers/tensorrtllm.cc:19-22 | removing twice is removing once |
| `RemoveIds.RemoveId` | cpp/tensorrt_llm/nitro/controllers/tensorrtllm.cc:19-22 | compacting in place leaves exactly `Without(old contents, id)` in front, and the returned length is the new vector size |
| `StopWords.IsComplete` | cpp/tensorrt_llm/nitro/controllers/tensorrtllm.cc:41-44 | the whole marker has been seen; on reachable states (progress at most 7) the source's `>=` test means progress is exactly 7 |
| `StopWords.Step` | cpp/tensorrt_llm/nitro/controllers/tensorrtllm.cc:47-80 | complete: emit and no change; at progress 0: suppress iff the fragment contains '<', then progress 1 and the fragment recorded; mid-match: the expected piece gives progress + 1 and suppress; otherwise `"<"` restarts at 1 and suppresses, anything else resets and emits; progress never passes 7 |
| `StopWords.Feed` | cpp/tensorrt_llm/nitro/controllers/tensorrtllm.cc:32-33 | over any stream, progress stays at most the length of the stop sequence |
| `StopWords.FeedComplete` | cpp/tensorrt_llm/nitro/controllers/tensorrtllm.cc:41-52 | a complete matcher never changes again and suppresses nothing |
| `StopWords.FeedRestOfMarker` | cpp/tensorrt_llm/nitro/controllers/tensorrtllm.cc:62-67 | from progress p, the pieces p..6 are each suppressed and complete the match |
| `StopWords.OpenThenRest` | cpp/tensorrt_llm/nitro/controllers/tensorrtllm.cc:53-67 | a fragment that opens a match, followed by the pieces 1..6, is suppressed throughout and completes the match |
| `StopWords.FeedStopSequence` | cpp/tensorrt_llm/nitro/controllers/tensorrtllm.cc:47-80 | from any incomplete state, the seven pieces are all suppressed and end complete |
| `StopWords.CompletesOnStopSequence` | cpp/tensorrt_llm/nitro/controllers/tensorrtllm.cc:47-80 | any stream that contains the seven pieces consecutively leaves the matcher complete |
| `StopWords.CompletesFromOpeningFragment` | cpp/tensorrt_llm/nitro/controllers/tensorrtllm.cc:53-67 | with no match open, any fragment containing '<' (not only "<") followed by the pieces 1..6 completes the match, all seven suppressed |
| `StopWords.CompleteOnlyAfterMarker` | cpp/tensorrt_llm/nitro/controllers/tensorrtllm.cc:53-67 | a fresh matcher completes only if some fragment containing '<' is followed at once by the other six pieces of the stop sequence |
| `StopWords.NoOpenStaysFresh` | cpp/tensorrt_llm/nitro/controllers/tensorrtllm.cc:53-60 | fragments without '<' leave a fresh matcher fresh |
| `StopWords.SeenMarkerWithoutCompletion` | cpp/tensorrt_llm/nitro/controllers/tensorrtllm.cc:62-78 | "<", "a<", then the pieces 1..6: the marker goes by after "a<", yet the matcher ends at progress 0, because "a<" breaks the open match rather than restarting it |
| `Streaming.Delta` | cpp/tensorrt_llm/nitro/controllers/tensorrtllm.cc:173-184 | a producer step pushes one fragment iff the cursor lies inside the decoded text; that fragment is non-empty and completes the text already streamed |
| `Streaming.DeltaCompletes` | cpp/tensorrt_llm/nitro/controllers/tensorrtllm.cc:173-184 | text already streamed plus the pushed delta is the decoded text |
| `Streaming.ProduceReassembles` | cpp/tensorrt_llm/nitro/controllers/tensorrtllm.cc:164-192 | while each decoded text extends the previous one, the pushed deltas concatenate to the latest text |
| `Streaming.EventFraming` | cpp/tensorrt_llm/nitro/controllers/tensorrtllm.cc:304-305 | an event is "data: ", the payload, then a blank line; the payload can be cut out again and the event is 8 bytes longer |
| `Streaming.FinalEventsEndWithSentinel` | cpp/tensorrt_llm/nitro/controllers/tensorrtllm.cc:295-297 | the final payload is the stop chunk's event followed by the event carrying "[DONE]" |
| `Streaming.Truncate` | cpp/tensorrt_llm/nitro/controllers/tensorrtllm.cc:299-312 | the bytes written are a prefix of the event, at most the buffer size, and the whole event when it fits |
| `Streaming.PopVisible` | cpp/tensorrt_llm/nitro/controllers/tensorrtllm.cc:280-292 | the pop loop leaves a suffix of the queue, and stops at the element just before that suffix, or at an empty queue |
| `Streaming.Pull` | cpp/tensorrt_llm/nitro/controllers/tensorrtllm.cc:266-322 | a null buffer finishes the session and returns 0; a finished session returns 0 and stays unchanged; never more bytes than the buffer size; waiting only on an empty queue; every write pops at least one fragment |
| `Streaming.PopVisibleSettles` | cpp/tensorrt_llm/nitro/controllers/tensorrtllm.cc:284-291 | a pop loop that empties the queue leaves the matcher the whole queue leads to |
| `Streaming.PopVisibleAppend` | cpp/tensorrt_llm/nitro/controllers/tensorrtllm.cc:284-291 | fragments pushed behind the queue do not change where the pop loop stops |
| `Streaming.PullPlainFragment` | cpp/tensorrt_llm/nitro/controllers/tensorrtllm.cc:286-314 | with no match open, a pull takes a fragment without '<' off the front and writes its event |
| `Streaming.PullSentinel` | cpp/tensorrt_llm/nitro/controllers/tensorrtllm.cc:286-302 | a pull that reaches "[DONE]" writes the final payload and finishes the session |
| `Streaming.PopVisibleAgrees` | cpp/tensorrt_llm/nitro/controllers/tensorrtllm.cc:280-314 | the pop loop stops at the first fragment of the reference stream, or at the sentinel or an empty queue when there is none |
| `Streaming.PullDeliversNextVisible` | cpp/tensorrt_llm/nitro/controllers/tensorrtllm.cc:266-322 | each pull of a live session writes the event of the next fragment due, in queue order, and the rest stays due; with none due, it writes the final payload and finishes if "[DONE]" is queued, and waits only if it is not |
| `Streaming.PopVisibleReachesSentinel` | cpp/tensorrt_llm/nitro/controllers/tensorrtllm.cc:280-293 | while "[DONE]" is queued, the pop loop stops at a fragment and never runs dry |
| `Streaming.PullThenPush` | cpp/tensorrt_llm/nitro/controllers/tensorrtllm.cc:178-314 | a pull commutes with later pushes: whatever is pushed behind the queue, the client is due the fragment written now followed by what the new state is due; with nothing due, a pull finishes with the final payload if "[DONE]" is queued (and nothing pushed later is due), and otherwise waits and changes nothing the client is due; the pull leaves "[DONE]" only where it was |
| `Streaming.Interleaving` | cpp/tensorrt_llm/nitro/controllers/tensorrtllm.cc:178-314 | for any schedule of pushes and pulls from a live session, with one buffer size: while the session stays live, the events written are, in order, those of a prefix of the fragments due for everything pushed, and the session still owes exactly the rest; once it has finished, "[DONE]" was pushed and the events written are those of all the fragments due, then the final payload, then only empty writes |
| `Streaming.InterleavingPush` | cpp/tensorrt_llm/nitro/controllers/tensorrtllm.cc:176-178 | the same, for a schedule that starts with a push |
| `Streaming.InterleavingTake` | cpp/tensorrt_llm/nitro/controllers/tensorrtllm.cc:284-314 | the same, for a schedule that starts with a pull |
| `Streaming.RunFinished` | cpp/tensorrt_llm/nitro/controllers/tensorrtllm.cc:275-278 | a finished session stays finished, and every later pull writes nothing |
| `Streaming.VisibleIsSubsequence` | cpp/tensorrt_llm/nitro/controllers/tensorrtllm.cc:280-314 | the client receives a subsequence of the queue: nothing is reordered |
| `Streaming.VisibleAppend` | cpp/tensorrt_llm/nitro/controllers/tensorrtllm.cc:280-314 | fragments pushed later never change what the client receives of earlier ones |
| `Streaming.VisiblePlain` | cpp/tensorrt_llm/nitro/controllers/tensorrtllm.cc:286-314 | with no match open and no '<' in the queue, every fragment before the sentinel reaches the client |
| `Streaming.VisibleAfterComplete` | cpp/tensorrt_llm/nitro/controllers/tensorrtllm.cc:49-52 | once the marker is matched, every later fragment before the sentinel reaches the client |
| `Streaming.VisibleAllSuppressed` | cpp/tensorrt_llm/nitro/controllers/tensorrtllm.cc:286-291 | fragments suppressed one after another are popped and never written |
| `Streaming.MarkerThenRest` | cpp/tensorrt_llm/nitro/controllers/tensorrtllm.cc:286-314 | from any incomplete matcher the seven marker pieces are hidden and everything after them is streamed |
| `Streaming.MarkerIsHidden` | cpp/tensorrt_llm/nitro/controllers/tensorrtllm.cc:286-314 | plain text, then the marker, then more text: the client gets the text before and after, without the marker |
| `Streaming.FalseStartLosesFragment` | cpp/tensorrt_llm/nitro/controllers/tensorrtllm.cc:53-78 | "a<b" opens a match that "c" breaks: "a<b" is lost and "c" is streamed |
| `Streaming.GeneratedSentinelEndsStream` | cpp/tensorrt_llm/nitro/controllers/tensorrtllm.cc:288-302 | generated text equal to "[DONE]" ends the stream, because the sentinel is in-band |
| `Streaming.StreamReassemblesText` | cpp/tensorrt_llm/nitro/controllers/tensorrtllm.cc:173-314 | end to end: with growing decoded texts free of '<' and no delta equal to "[DONE]", the client receives exactly the final text |
| `Streaming.ThreeFragmentsScenario` | cpp/tensorrt_llm/nitro/controllers/tensorrtllm.cc:266-322 | "a", "b", sentinel, pulled four times: the "a" event, the "b" event, the final payload, then 0 bytes |
| `Inference.CopyOut` | cpp/tensorrt_llm/nitro/controllers/tensorrtllm.cc:309-312 | the first n bytes of the buffer become the first n of the event; the rest of the buffer is untouched |
| `Inference.InferenceState.constructor` | cpp/tensorrt_llm/nitro/controllers/tensorrtllm.cc:24-33 | a new session: cursor 0, no match, not finished, empty queue |
| `Inference.InferenceState.Reset` | cpp/tensorrt_llm/nitro/controllers/tensorrtllm.cc:35-39 | progress 0 and an empty recorded fragment |
| `Inference.InferenceState.IsComplete` | cpp/tensorrt_llm/nitro/controllers/tensorrtllm.cc:41-44 | the class's test agrees with `StopWords.IsComplete` on the matcher part of the state |
| `Inference.InferenceState.HandleMatch` | cpp/tensorrt_llm/nitro/controllers/tensorrtllm.cc:47-80 | changes the fields and answers exactly as `StopWords.Step`, keeping progress at most 7 |
| `Inference.InferenceState.OnTokenGenerated` | cpp/tensorrt_llm/nitro/controllers/tensorrtllm.cc:160-192 | decodes the generated ids without padding; appends `Delta(old cursor, text)` and, on the final step, "[DONE]" after it; the cursor ends at the text length |
| `Inference.InferenceState.ChunkedContentProvider` | cpp/tensorrt_llm/nitro/controllers/tensorrtllm.cc:266-322 | new state, wait flag and byte count as `Streaming.Pull` gives them; exactly those bytes are written at the front of the buffer |
| `ChatCompletion.FormatInput` | cpp/tensorrt_llm/nitro/controllers/tensorrtllm.cc:203-243 | the prompt is the system messages (latest first), then `pre_prompt`, then every other message as marker + content in order (an unknown role's marker is its name), then `ai_prompt` |
| `ChatCompletion.Advance` | cpp/tensorrt_llm/nitro/controllers/tensorrtllm.cc:214-242 | one turn of the loop: a system message goes in front of the text so far, any other message after it, and the text stays system block, `pre_prompt`, turns |
| `ChatCompletion.TurnsAppend` | cpp/tensorrt_llm/nitro/controllers/tensorrtllm.cc:214-242 | non-system messages are appended in message order |
| `ChatCompletion.SystemBlockAppend` | cpp/tensorrt_llm/nitro/controllers/tensorrtllm.cc:230-235 | system messages of a later batch go in front of those of an earlier one |
| `ChatCompletion.SystemGoesFirst` | cpp/tensorrt_llm/nitro/controllers/tensorrtllm.cc:214-242 | one system message is prepended ahead of everything built before it and does not disturb the order of the other messages |
| `ChatCompletion.NoSystemBlock` | cpp/tensorrt_llm/nitro/controllers/tensorrtllm.cc:214-242 | without system messages nothing goes in front of `pre_prompt` |
| `ChatCompletion.SystemThenUserScenario` | cpp/tensorrt_llm/nitro/controllers/tensorrtllm.cc:214-243 | system "S" then user "U" with markers "<<SYS>>", "<<USR>>", "<<AST>>" gives "<<SYS>>S<<USR>>U<<AST>>" |
| `ChatCompletion.StartCompletion` | cpp/tensorrt_llm/nitro/controllers/tensorrtllm.cc:246-258 | the prompt is encoded; `outputLen` is `max_tokens` minus the prompt length; seed 42, top-k 40, minimum length `outputLen`; a fresh session state |

## Left out

- GPU tensor construction, the stop-word tensors (lines 111-146) and the engine's `generate`
  (line 196) are calls into the inference engine and are not modelled. The engine is represented
  only by the arguments of `OnTokenGenerated` (output ids, step finished or not).
- The tokenizer's `encode` and `decode` (lines 171, 248) are opaque function parameters.
- `create_return_json` (lines 83-109) builds JSON with JsonCpp, the clock and a random id. Its
  results are parameters of the pull: `render` for a content chunk and `stopPayload` for the chunk
  with finish reason "stop". Only the SSE framing `data: ...\n\n` is modelled.
- The thread creation and detach (lines 262-264), the queue mutex and the spin loop are
  concurrency and are not modelled. Each producer step and each pull is one atomic sequential step.
  An empty queue gives `WouldWait` instead of spinning.
- `loadModel` (lines 329-384) does file access, configuration parsing and engine set-up. The
  prompt markers it configures are the `Prompts` value given to the prompt builder.
- The floating-point sampling fields (temperature, top-p, repetition penalty, lines 254-259) are
  not modelled.
- `kvCacheConfig.h` holds only data (two optional settings) and is not part of this model.
- Strings: the source's `std::string` is a byte string. A Dafny `string` here stands for it, one
  `char` per byte; no character encoding is modelled, and lengths and buffer sizes count bytes.
- The log message when the connection closes (line 270) is I/O and is not modelled.
- The JSON request's `messages` array and its `message["role"].asString()` and
  `message["content"].asString()` reads (lines 216-239) are replaced by a sequence of
  `Message(role, content)` values; JSON parsing and non-string JSON values are not modelled.
- Inference.InferenceState.OnTokenGenerated: does not model the narrowing of `text.size()` to the
  32-bit `prevPos`; decoded texts are assumed shorter than 2^31 characters.
- Inference.InferenceState.OnTokenGenerated: requires the engine's output to be at least as long
  as the prompt. The source slices at `inputLen` without checking this, and the engine's output
  always begins with the prompt.
- ChatCompletion.StartCompletion: does not model 32-bit overflow of `max_tokens - inputLen`;
  integers are unbounded.
