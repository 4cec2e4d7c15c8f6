# Phi-3 Discord bot: answer text handling

This project models the text handling of `blocking_generate_response` in the
Phi-3 Discord bot:

- the question is wrapped in the Q/A prompt template `Q: {question}\nA:`;
- the prompt goes to the tokenizer, the language model and the decoder;
- the answer is cut out of the decoded text. If the text contains `A:`, the
  answer is the second piece of `split("A:")`, stripped. Otherwise it is the
  whole text, stripped;
- any exception along the way is caught, and the fixed fallback text
  `There was an error generating the response.` is returned instead.

The tokenizer, the model and the decoder are not modelled. They appear as one
opaque parameter `pipeline: string -> Decoded`. It maps the prompt either to
the decoded text or to `Failed`, which stands for an exception raised anywhere
in that chain.

The model has two modules:

- `PyStr` (`py_str.dfy`) models the Python `str` operations the handler uses.
  These are `strip()` with the `str.isspace` whitespace set, the `in` test
  and `split(sep)`. `find` is the leftmost search that `split` is built on,
  and `join` appears only to state that `split` can be undone.
- `Phi3Bot` (`phi3_bot.dfy`) models the template, the extraction, the fallback
  and the whole handler.

The handler's code differs in one place from its own comment. The comment at
discord_phi3_bot.py:53 says the code extracts "the part of the response
after "A:"". The code takes `split("A:")[1]`, so the answer stops at the
next `A:` if there is one. The model follows the code. `Phi3Bot.ExtractWithMarker`
states the general rule, and `Phi3Bot.ExampleSecondMarkerTruncates` shows it
on a concrete output.

A causal language model's decoded output usually begins with the prompt
itself, although decoding with special tokens skipped need not reproduce it.
When it does, the first `A:` is the template's own, unless the question
contains one.
`Phi3Bot.EchoedPrompt` states what the answer is in that case.
`Phi3Bot.EchoedQuestionWithMarker` covers a question that contains `A:`. The
answer is then taken from the question alone, whatever continuation follows,
and `Phi3Bot.QuestionWithMarker` shows this for one question.

## Model

| member | source | states |
|---|---|---|
| Phi3Bot.FormatPrompt | discord_phi3_bot.py:32 | the prompt is `Q: `, then the question unchanged, then a newline and `A:`; it is six characters longer than the question |
| Phi3Bot.QuestionOf | discord_phi3_bot.py:32 | a question can be read back exactly when the text has the template's prefix and suffix |
| Phi3Bot.PromptRoundTrip | discord_phi3_bot.py:32 | reading the question back out of the prompt gives the original question |
| Phi3Bot.PromptDetermined | discord_phi3_bot.py:32 | a prompt of the template's shape is the template applied to the question read back from it |
| Phi3Bot.Extract | discord_phi3_bot.py:53-57 | the extracted answer never begins or ends with whitespace and never contains `A:` |
| Phi3Bot.ExtractWithoutMarker | discord_phi3_bot.py:56-57 | without `A:`, the decoded text is the answer with only whitespace on either side |
| Phi3Bot.ExtractTrimmedNoMarker | discord_phi3_bot.py:56-57 | an output without `A:` and without whitespace at either end comes back unchanged |
| Phi3Bot.ExtractWithMarker | discord_phi3_bot.py:54-55 | with the first `A:` at k and the next at e (or no next one, e = end), the answer is the text between k+2 and e, stripped |
| Phi3Bot.MarkerSpan | discord_phi3_bot.py:54-55 | every text that contains `A:` has a first marker k and a next marker or end e as `ExtractWithMarker` needs them, and its answer is the stripped text from k+2 to e; that rule covers every such text |
| Phi3Bot.ExtractIdempotent | discord_phi3_bot.py:54-57 | extracting again from an extracted answer changes nothing |
| Phi3Bot.AnswerAfterFirstMarker | discord_phi3_bot.py:54-55 | with the first `A:` at k, the answer is the text after it, cut at its own first `A:`, stripped |
| Phi3Bot.PromptMarkerFirst | discord_phi3_bot.py:32 | if the question has no `A:`, the template's `A:` is the first one in any text that starts with the prompt |
| Phi3Bot.EchoedPrompt | discord_phi3_bot.py:32-57 | if the question has no `A:` and the output is the prompt plus a continuation, the answer is the continuation up to its first `A:`, stripped |
| Phi3Bot.EchoedQuestionWithMarker | discord_phi3_bot.py:32-57 | if the question contains `A:` and the output is the prompt plus any continuation, the answer is what extraction takes from the question alone |
| Phi3Bot.EchoedSpan | discord_phi3_bot.py:32-57 | for output that begins with the prompt, the answer is the question's own text between its first `A:` and its next `A:` or its end, stripped |
| Phi3Bot.EchoedInnerSpan | discord_phi3_bot.py:32-57 | when the question holds a second `A:`, the answer ends at it, inside the question |
| Phi3Bot.EchoedTemplateSpan | discord_phi3_bot.py:32-57 | when the question holds one `A:` only, the template's `A:` ends the answer, and the newline before it is stripped |
| Phi3Bot.QuestionWithMarker | discord_phi3_bot.py:32-57 | when the output begins with the prompt, the question `A: x` gives the answer `x`, whatever continuation follows |
| Phi3Bot.ExampleAnswer | discord_phi3_bot.py:54-55 | the output `Q: What is 2+2?\nA: 4` gives the answer `4` |
| Phi3Bot.ExampleNoMarker | discord_phi3_bot.py:56-57 | the output `no marker present` comes back unchanged |
| Phi3Bot.ExampleEmptyAfterPrompt | discord_phi3_bot.py:54-55 | the output `Q: hi\nA:` gives the empty answer |
| Phi3Bot.ExampleEmptyBetweenMarkers | discord_phi3_bot.py:54-55 | the output `A:A: x` gives the empty answer, because the second piece lies between the two markers |
| Phi3Bot.ExampleSecondMarkerTruncates | discord_phi3_bot.py:54-55 | the output `Q: hi\nA: yes\nA: no` gives `yes`; the text after the second `A:` is dropped |
| Phi3Bot.Respond | discord_phi3_bot.py:51-63 | a failure gives exactly the fallback text and decoded text gives its extracted answer; every reply is trimmed and contains no `A:` |
| Phi3Bot.FallbackShape | discord_phi3_bot.py:63 | the fallback text is trimmed and contains no `A:` |
| Phi3Bot.GenerateResponse | discord_phi3_bot.py:28-63 | the pipeline runs on the formatted prompt; a failure gives the fallback and decoded text gives its extracted answer; the reply is always trimmed and free of `A:` |
| Phi3Bot.GenerateEchoed | discord_phi3_bot.py:28-63 | end to end, when the pipeline echoes the prompt and the question has no `A:`, the reply is the continuation up to its first `A:`, stripped |
| PyStr.IsSpace | discord_phi3_bot.py:55-57 | `str.isspace` as CPython decides it, range by range, holds exactly for the characters of `Whitespace`, the set `strip()` removes |
| PyStr.StripStart | discord_phi3_bot.py:55 | the left strip is a suffix of its input; everything removed is in the strip set; the result does not start with a character of the set |
| PyStr.StripEnd | discord_phi3_bot.py:55 | the right strip is a prefix of its input; everything removed is in the strip set; the result does not end with a character of the set |
| PyStr.StripChars | discord_phi3_bot.py:55 | the result starts and ends with no character of the strip set, and it is no longer than the input |
| PyStr.Strip | discord_phi3_bot.py:55-57 | `strip()` with no argument: the result has no whitespace at either end and is no longer than the input |
| PyStr.StripSplits | discord_phi3_bot.py:55-57 | the input is the stripped text with only strip-set characters before and after it |
| PyStr.StripUnique | discord_phi3_bot.py:55-57 | a trimmed text padded on both sides with strip-set characters strips back to itself |
| PyStr.StripTrailingSpace | discord_phi3_bot.py:55-57 | whitespace appended after a text does not change what `strip()` gives |
| PyStr.StripIdempotent | discord_phi3_bot.py:55-57 | stripping twice is the same as stripping once |
| PyStr.ContainsInfix | discord_phi3_bot.py:54 | `Contains`, the model of `"A:" in response`, holds exactly when the pattern is an infix of the text |
| PyStr.Find | discord_phi3_bot.py:54 | `find`: none exactly when the pattern does not occur; otherwise the index of an occurrence with no occurrence before it |
| PyStr.NextOrEnd | discord_phi3_bot.py:55 | from any index there is a first occurrence at or after it, or else none up to the end |
| PyStr.Split | discord_phi3_bot.py:54-55 | `split(sep)` gives at least one piece, and exactly one when the separator does not occur |
| PyStr.SplitJoin | discord_phi3_bot.py:55 | joining the pieces of a split with the separator gives back the original text |
| PyStr.SplitPiecesLack | discord_phi3_bot.py:55 | no piece of a split contains the separator |
| PyStr.SplitFirst | discord_phi3_bot.py:55 | the first piece is the text before the first occurrence, or the whole text |
| PyStr.SplitSecond | discord_phi3_bot.py:55 | the second piece is the text between the first occurrence and the next one, or the end |

## Left out

- Model and tokenizer loading and device selection (lines 9-15) are left out. They are setup done once, outside the text handling.
- Tokenizing, sampling-based generation and decoding (lines 35-51) are left out. They become the opaque `pipeline` parameter. The sampling settings (at most 100 new tokens, temperature 0.7, top-k 50, top-p 0.95) only affect which text comes back, so they are not modelled.
- The diagnostic `print` calls (lines 30, 46, 48, 59, 62) are left out. Console output is I/O. A `print` that raised inside the `try` (lines 30, 46, 48, 59) would also lead to the fallback; the model folds every such failure into `Failed`.
- Phi3Bot.Respond: assumes the `print` at line 62, in the `except` branch, does not raise. If it did, the exception would leave the handler, and `ask` would reply with its own error text (lines 73-75) instead of the fallback.
- The Discord glue (lines 17-26 and 65-80) is left out. This covers the bot, its intents, the `!ask` command, sending the reply and `bot.run`.
- The thread pool and `run_in_executor` (lines 6, 22, 69-70) are left out. They concern concurrency, not the text.
- The outer timeout and error replies of `ask` (lines 71-75) are left out. They belong to the Discord command, not to `blocking_generate_response`.
- Python strings may hold lone surrogate code points, which Dafny's `char` cannot represent. The model covers strings of Unicode scalar values only.
- A strip argument is treated as a set of characters, which is how Python reads it. Only the no-argument form `strip()` is used by the bot.
