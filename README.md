# LLMChatInterface streaming core, in Dafny

This project models the streaming core of the `LLMChatInterface` browser widget,
`llmchatinterface.js`. That core has two parts:

- **The chunk decoder.** It is the body of the read loop in `sendMessage`. It splits each
  decoded network chunk into non-blank lines, glues a pending carry-over (`mem`) onto the
  first one, and strips a leading `data: ` and trims each line. It stops the chunk at
  `[DONE]` and sets `streamEnded`. It parses every other payload as JSON and queues the
  `choices[0].delta.content` token in `buffer`. A payload that throws becomes the new
  carry-over.
- **The paced writer, `write()`.** Each run moves the front token of `buffer` onto the
  assistant element and schedules another run 5 ms later. A run that finds the queue empty
  clears `alreadyWriting` and calls the end callback when the stream has ended. The read
  loop starts a chain only when `alreadyWriting` is clear.

The modules follow that split.

- `JsText` (`js_text.dfy`) holds the string operations the decoder uses: `split('\n')`, the
  blank-line filter, and `trim()` with JavaScript's white-space set.
- `JsonValue` (`json_value.dfy`) holds JSON values, JavaScript truthiness and the content
  test of line 111. The test either throws a TypeError, skips the payload or yields a token.
  It also holds `String(v)`, which `innerHTML += chunk` applies to non-string tokens.
- `FrameDecoder` (`frame_decoder.dfy`) holds the decoder as pure functions over
  `(mem, buffer, streamEnded)`. It also holds reference definitions: the lines processed
  before `[DONE]`, the tokens they yield and the last failing payload. Lemmas tie the two
  together.
- `PacedWriter` (`paced_writer.dfy`) holds one run of `write()`, a whole drain chain and `k`
  runs, as functions.
- `ChatInterface` (`chat_interface.dfy`) holds the class `LLMChatInterface` with the fields
  the source updates in place. `FeedChunk` is one pass of the read loop's body, and its
  `Decode` and `RunLines` carry the `for` loop with its `break`. `Write` is `write()` and
  `OnTimer` is its timer going off. Each method is proved against the functions above.

The class invariant `Valid` states four things:

- A timer is pending exactly when `alreadyWriting` is set, so there is never more than one
  drain chain.
- The carry-over is empty or a trimmed payload that parsing rejects.
- Ghost records of the tokens pushed and written satisfy `written + buffer == pushed`, so
  tokens leave the queue in the order they were queued and none is lost.
- The assistant element shows exactly the tokens written since the current message began,
  in the order they were written (`rendered == Concat(written[turnStart..])`).

Together these give `OnTimer`'s promise: when a run of `write()` does not reschedule, the
element shows every token that had not yet been written when the message began, then every
token pushed since, in push order, and an end callback made then receives exactly that text.
Tokens still queued from an earlier message are therefore rendered into the new message's
element. `FeedChunk` and `OnTimer` leave the mark of where the message began unchanged, so
only `BeginTurn` moves it.

`JSON.parse` is a parameter of the class, `JsonParser`, and `None` stands for its
SyntaxError. The decoder functions are generic in the classifier built from it.

Some of the code's behaviour may surprise a reader. The model keeps it as written:

- **The end callback is not called exactly once.** It is called by every run of `write()`
  that finds the queue empty after the stream has ended: see `CallbackRepeats`.
- **Nothing is reset between messages.** A new turn only replaces the render target
  (`BeginTurn`). `mem`, `buffer` and `streamEnded` carry over, and an ended flag from an
  earlier turn makes the next chain call the callback as soon as its queue drains.
- **`[DONE]` does not stop later chunks.** It ends only the current chunk's line loop, and
  later chunks are still decoded: see `DecodeAfterEnd`.
- **A line split across chunks is not always reassembled exactly.** The carry-over is
  stored trimmed, so white space at the end of the first half is lost: see
  `SplitLineReassembled` and `SplitLineExact`.
- **A blank chunk glues "undefined" onto the carry-over.** When a carry-over is pending and
  the chunk has no non-blank line, `lines[0]` is `undefined` and the single line processed
  is the carry-over followed by `"undefined"`: see `BlankChunkGluesUndefined`.
- **An empty `choices` array takes the parse-failure path.** With `choices: []`, reading
  `choices[0].delta` throws, and the payload becomes the carry-over: see
  `EmptyChoicesThrows`.

## Model

| member | source | states |
|---|---|---|
| JsText.Split | llmchatinterface.js:94 | `split('\n')` yields at least one piece and no piece contains a line break |
| JsText.JoinSplit | llmchatinterface.js:94 | joining the pieces of a split with the separator gives back the chunk |
| JsText.SplitJoin | llmchatinterface.js:94 | splitting a join of separator-free pieces gives back the pieces |
| JsText.SplitAround | llmchatinterface.js:94 | a line break between two texts splits them apart: the pieces of the first, then those of the second |
| JsText.BlankIff | llmchatinterface.js:94 | a line is dropped by the filter (`trim() === ''`) exactly when every character is JavaScript white space |
| JsText.NonBlankKeeps | llmchatinterface.js:94 | the filter keeps a line exactly when it is one of the lines and is not blank |
| JsText.NonBlankAppend | llmchatinterface.js:94 | the filter keeps order: filtering a concatenation concatenates the filtered parts |
| JsText.LinesAround | llmchatinterface.js:94 | the non-blank lines of `u + "\n" + v` are those of `u` followed by those of `v` |
| JsText.OneLine | llmchatinterface.js:94 | a non-blank text without a line break is a chunk of exactly one line |
| JsText.NonBlankLines | llmchatinterface.js:94 | every line the decoder looks at is free of line breaks and not blank |
| JsText.Trim | llmchatinterface.js:102 | what `trim()` returns is empty or starts and ends with a non-space character, and is no longer than its input |
| JsText.TrimStartSpec | llmchatinterface.js:102 | trimming the start removes exactly a leading run of white space and stops at a non-space character |
| JsText.TrimEndSpec | llmchatinterface.js:102 | trimming the end removes exactly a trailing run of white space and stops at a non-space character |
| JsText.TrimChars | llmchatinterface.js:102 | trimming introduces no character that was not in the text |
| JsText.TrimUnique | llmchatinterface.js:102 | a trimmed core surrounded by white space trims to that core |
| JsText.TrimIdempotent | llmchatinterface.js:102 | trimming twice is trimming once |
| JsonValue.Get | llmchatinterface.js:111 | a property read yields a value exactly when the value is an object with that field |
| JsonValue.ExtractContent | llmchatinterface.js:111-113 | a token is pushed only from an object that has a `choices` field |
| JsonValue.ExtractPushIff | llmchatinterface.js:111-113 | a token is pushed exactly when `choices`, `choices[0].delta` and `delta.content` are truthy and `choices[0]` is neither undefined nor null; the token is the text of `content` |
| JsonValue.ExtractThrowsIff | llmchatinterface.js:109-117 | the content test throws exactly when the parsed value is null or a truthy `choices` has an undefined or null `[0]` |
| JsonValue.DocumentedShape | llmchatinterface.js:110-113 | a payload shaped `{"choices":[{"delta":{"content":s}}]}` yields `s`, or nothing when `s` is empty |
| JsonValue.EmptyChoicesThrows | llmchatinterface.js:111 | well-formed JSON with an empty `choices` array takes the failure path |
| JsonValue.NatToText | llmchatinterface.js:36 | the text of a non-negative number is decimal digits with no leading zero, and the number they stand for is the number itself |
| JsonValue.IntToText | llmchatinterface.js:36 | the text of an integer, with a minus sign when negative, stands for that integer |
| JsonValue.ToText | llmchatinterface.js:36 | `String(v)` appends a string token as it is and a number as the numeral that stands for it |
| JsonValue.FalsyValues | llmchatinterface.js:111 | the values that fail the `&&` tests are exactly undefined, null, false, 0 and the empty string |
| JsonValue.Index0 | llmchatinterface.js:111 | `choices[0]` is a value only for an array, an object or a string: an array's first element, a string's first character, undefined when empty |
| FrameDecoder.StripDataPrefix | llmchatinterface.js:102 | `replace(/^data: /, '')` removes the marker exactly when the line starts with it, and only once |
| FrameDecoder.Payload | llmchatinterface.js:102 | a payload never starts or ends with white space and is no longer than its line |
| FrameDecoder.PayloadOfDataLine | llmchatinterface.js:102 | the payload of `data: x` is `x` trimmed, even when `x` starts with another marker |
| FrameDecoder.ProcessLine | llmchatinterface.js:101-117 | one line stops the loop exactly when its payload is `[DONE]` |
| FrameDecoder.LineEffect | llmchatinterface.js:109-117 | a line that is not `[DONE]` appends its token, if any, and a failing line replaces the carry-over with its payload |
| FrameDecoder.GluedLines | llmchatinterface.js:94-99 | with no carry-over the lines are the chunk's non-blank lines; otherwise the first line starts with the carry-over |
| FrameDecoder.GluedInPlace | llmchatinterface.js:96-99 | the glued lines are the non-blank lines with `lines[0]` replaced by `mem + lines[0]` |
| FrameDecoder.DecodeLines | llmchatinterface.js:101-118 | the line loop only appends to the queue and never clears the end flag |
| FrameDecoder.DecodeChunk | llmchatinterface.js:94-118 | decoding a chunk only appends to the queue and never clears the end flag |
| FrameDecoder.DecodedChunk | llmchatinterface.js:94-118 | after a chunk the carry-over is acceptable and the queue has grown by exactly the chunk's tokens |
| FrameDecoder.ProcessedPrefix | llmchatinterface.js:101-107 | the processed lines are the prefix before the first `[DONE]`, and they are fewer than all the lines exactly when a `[DONE]` occurs |
| FrameDecoder.LastFailureIsLast | llmchatinterface.js:115-116 | the surviving failure is the payload of a failing line after which no line fails, and there is one exactly when some line fails |
| FrameDecoder.DecodeLinesEffect | llmchatinterface.js:101-118 | the line loop appends the tokens of the lines before `[DONE]` in order, leaves the last failing payload as carry-over, and sets the end flag exactly when a `[DONE]` line occurs |
| FrameDecoder.DecodeLinesBuffer | llmchatinterface.js:110-114 | the queue grows by the tokens of the processed lines, in line order |
| FrameDecoder.DecodeLinesMem | llmchatinterface.js:115-116 | the carry-over becomes the last failing processed payload, or is left alone when none fails |
| FrameDecoder.DecodeLinesEnded | llmchatinterface.js:104-107 | the end flag is set exactly when it was set before or some line is `[DONE]` |
| FrameDecoder.DoneStopsChunk | llmchatinterface.js:104-107 | lines after a `[DONE]` in the same chunk have no effect |
| FrameDecoder.DecodeLinesAppend | llmchatinterface.js:101-118 | lines without `[DONE]` can be processed in two goes with the same result |
| FrameDecoder.DecodeChunkEffect | llmchatinterface.js:94-118 | a chunk's effect on the carry-over, queue and end flag matches the reference definitions; a previous carry-over never survives unchanged |
| FrameDecoder.CarryOverKept | llmchatinterface.js:96-116 | after any chunk the carry-over is empty or a trimmed payload, other than `[DONE]`, that parsing rejects |
| FrameDecoder.DecodeAfterEnd | llmchatinterface.js:104-107 | after `[DONE]` a later chunk still pushes exactly the tokens it would have pushed before |
| FrameDecoder.BlankChunkGluesUndefined | llmchatinterface.js:94-99 | a white-space-only chunk with a pending carry-over runs the loop on the single line `mem + "undefined"` |
| FrameDecoder.SamePayloadSameDecode | llmchatinterface.js:102 | two lines with the same payload have the same effect |
| FrameDecoder.FirstHalfCarried | llmchatinterface.js:115-116 | the first half of a split `data:` line, failing to parse, becomes the carry-over, trimmed |
| FrameDecoder.SecondHalfGlued | llmchatinterface.js:96-99 | the second half of a split line is glued onto the carry-over before the rest of the chunk |
| FrameDecoder.SplitLineReassembled | llmchatinterface.js:94-118 | when the first chunk is only the first half of a `data:` line, the two halves decode as the whole line with the first half's trailing white space removed |
| FrameDecoder.SplitLineExact | llmchatinterface.js:94-118 | when the first chunk is only the first half of a `data:` line and has no trailing white space, the halves decode exactly as the whole line |
| FrameDecoder.SplitLineAnywhere | llmchatinterface.js:94-118 | a line cut anywhere, inside the `data: ` marker included, whose first half alone parsing rejects: the second chunk decodes as the first half's payload glued to the second half, as one line |
| FrameDecoder.SplitLineAnywhereExact | llmchatinterface.js:94-118 | a cut inside or before the marker, with a first half that has no white space at its ends: the halves decode exactly as the unsplit line |
| FrameDecoder.FirstHalfKept | llmchatinterface.js:94-118 | a first chunk of one line that parsing rejects changes nothing but the carry-over, which becomes its payload |
| FrameDecoder.SplitLineAfterLines | llmchatinterface.js:94-118 | with complete lines before the cut one in the first chunk, lines that neither fail nor end the stream, the cut line decodes as the whole line with the first half's trailing white space removed |
| FrameDecoder.SplitLineExactAfterLines | llmchatinterface.js:94-118 | with such complete lines before it, a cut line whose first half has no trailing white space decodes exactly as the whole line |
| FrameDecoder.CleanPrefixChunk | llmchatinterface.js:94-118 | complete lines that neither fail nor end the stream at the head of a chunk are processed first and leave no carry-over for the rest of the chunk |
| FrameDecoder.GluedIsWhole | llmchatinterface.js:96-102 | the carry-over glued onto the second half has the same effect as the unsplit `data:` line |
| FrameDecoder.LineAlignedChunks | llmchatinterface.js:94-118 | chunks ending on a line break decode as their concatenation when the first leaves no carry-over and does not end the stream |
| FrameDecoder.CleanLinesKeepState | llmchatinterface.js:115-116 | lines that neither fail nor end the stream leave the carry-over alone |
| PacedWriter.Write | llmchatinterface.js:32-44 | a run on a non-empty queue removes the front token, appends it to the rendered text and reschedules; a run on an empty queue changes neither the queue nor the text, does not reschedule, and calls the end callback exactly when the stream has ended; `alreadyWriting` is set to whether it rescheduled |
| PacedWriter.Chain | llmchatinterface.js:32-44 | a drain chain empties the queue, renders every queued token in order, clears `alreadyWriting`, and calls the end callback once with the full text exactly when the stream has ended |
| PacedWriter.DrainPrefix | llmchatinterface.js:33-37 | after `k` runs the rendered text has grown by the first `k` tokens, the rest of the queue is untouched and the callback is not called |
| PacedWriter.CallbackRepeats | llmchatinterface.js:38-41 | a run after a finished chain of an ended stream calls the end callback a second time |
| PacedWriter.ConcatAppend | llmchatinterface.js:36 | rendering two runs of tokens renders their concatenation |
| ChatInterface.Classify | llmchatinterface.js:109-117 | a payload `JSON.parse` rejects takes the failure path |
| ChatInterface.LastTokenThenSentinel | llmchatinterface.js:101-121 | a last token followed by `[DONE]` in the same chunk is still queued, and the drain chain calls the end callback once, after rendering it |
| ChatInterface.LLMChatInterface.constructor | llmchatinterface.js:12-18 | a new interface has no carry-over, an empty queue, both flags clear and no pending timer, and keeps the class invariant |
| ChatInterface.LLMChatInterface.BeginTurn | llmchatinterface.js:54 | a new message resets only the render target to empty text and starts counting written tokens afresh; the class invariant is kept |
| ChatInterface.LLMChatInterface.Write | llmchatinterface.js:32-44 | the fields change as one run of the writer function prescribes, one timer is added exactly when it reschedules, and the element keeps showing the tokens written since the message began |
| ChatInterface.LLMChatInterface.OnTimer | llmchatinterface.js:37 | the pending timer runs `write()` and keeps a single drain chain; the token it writes is appended to the written ones and the start of the message stays where it was; when the run does not reschedule, the element shows every token unwritten when the message began and every token pushed since, in order, and an end call receives that text |
| ChatInterface.LLMChatInterface.FeedChunk | llmchatinterface.js:93-122 | one pass of the read loop decodes the chunk as the decoder function prescribes, then runs `write()` exactly when no chain is running, keeping the class invariant and the start of the message |
| ChatInterface.LLMChatInterface.Decode | llmchatinterface.js:94-118 | the fields after the line loop are the decoder function's result, and the pushed tokens are the chunk's tokens |
| ChatInterface.LLMChatInterface.Glue | llmchatinterface.js:94-99 | the lines are the chunk's non-blank lines with a pending carry-over glued onto the first in place, or `mem + "undefined"` when there are none, and the carry-over is cleared |
| ChatInterface.LLMChatInterface.RunLines | llmchatinterface.js:101-118 | the `for` loop with its `break` computes the line-loop function on the fields |

## Left out

- The DOM is not modelled. The assistant element's `innerHTML` is plain text concatenation, so HTML in tokens is not interpreted, and `addMessage`'s `<br>` conversion is omitted.
- The network side is not modelled: `fetch`, its headers, `response.ok`, `reader.read()` and `TextDecoder`. Chunks arrive as already-decoded strings, so a UTF-8 sequence split across reads is not modelled.
- `setTimeout`'s 5 ms delay is not modelled. A scheduled run is a counter, `pendingTimers`, and `OnTimer` is its firing. Events may interleave in any order the class's preconditions allow.
- `JSON.parse` is a parameter, not a parser. Numbers are integers: fractions, exponents and `NaN` truthiness are not modelled. Strings are sequences of characters rather than UTF-16 code units.
- The outer `while (true)` read loop and its `done` exit are not modelled as a loop. Each pass of its body is one `FeedChunk` call.
- The error and abort handling at lines 125-134 is not modelled: `AbortController`, the "Request aborted." text, `console.error` and the error message.
- Input capture and the start callback are not modelled: the `userInput` handling, `conversationHistory`, `hasStarted` and `onStartCallback`. They take no part in the stream's state.
- The end callback's own effects are not modelled, including any re-entrant call. The model records only the texts it is called with.
- A line cut across three or more chunks is not covered by a lemma. A middle chunk without a line break is glued onto the carry-over and its payload kept again; the model computes this, but no lemma states where such a chain of cuts ends up.
- ChatInterface.LLMChatInterface.RunLines: it requires the ghost relation between pushed and written tokens, which is bookkeeping the source does not have.
