# Chat completion over a local Ollama endpoint — a Dafny model

This project models the core of `src/tools/openrouter_config.py`, a client for a
local text-generation HTTP endpoint, and proves properties of the model. It has
two layers.

- **`generate_content_with_retry`** (module `Ollama`, `generate.dfy`) POSTs a
  prompt to the endpoint. A reply whose status is not 200 raises
  `"API 返回错误: <status> - <body>"`. A reply with status 200 yields the
  `response` field of its JSON body, or `""` when the field is absent. The
  backoff decorator around the call gives up on every error whose message
  lacks `"API limit"`. The error handler sleeps 5 seconds before it re-raises
  such a rate-limit error.
- **`get_chat_completion`** (module `Chat`, `chat.dfy`) turns role-tagged
  messages into one prompt and an optional `system_instruction` configuration:
  - each user or assistant message adds a `"User: …\n"` or `"Assistant: …\n"`
    line, in order;
  - the last system message gives the instruction;
  - other roles are skipped;
  - the prompt is `strip()`ped.

  It then calls the backend up to `max_retries` times. It returns the first
  non-empty text. An exception and an empty text are handled alike: the
  adapter sleeps `initial_retry_delay * 2^attempt` seconds between attempts,
  with no sleep after the last one, and returns `None` once the attempts run
  out.

The Python string builtins used on the way are in module `Text` (`text.dfy`):
- `str.isspace` and `str.strip()`;
- the substring test `t in s`;
- `str(n)` for an int.

Module `Wrappers` (`wrappers.dfy`) holds `Option` and `Result`.

How the model is built:
- **Entities.** A message is a Python dict, so it is a `map<string, string>`.
  The backend is a sequence of outcomes (`Raised` or `Returned(text)`), one per
  call, consumed in order. `Chat.Observed` maps an endpoint reply that ends its
  decorated call, through `Ollama.Invoke`, to the outcome the adapter sees,
  which joins the two layers. A reply whose error carries `"API limit"` does not
  end its call: the decorator POSTs again (`Chat.DecoratorRetries`).
- **Result and effects.** A run's result, the requests the backend received
  and the delays slept form a `Trace`. Every sleep is recorded as its delay in
  seconds.
- **Conversion loop.** The loop over the messages is the method
  `Chat.Flatten`. It is proved against the reference functions `Transcript`
  and `LastSystem`.
- **Attempt loop.** The attempt loop is the method `Chat.GetChatCompletion`.
  Its loop body is the method `Chat.Attempt`: the `try` block, the empty-text
  branch and the `except` handler, each written out as in the source. Both
  methods are proved against the recursive specification `Chat.Run`. The
  closed forms of `Run` are proved as lemmas: first success, exhaustion,
  malformed messages, no attempts and negative delays.

Edge cases of the source that the model keeps:
- **Missing keys.** A message without a `"role"` or `"content"` key raises
  `KeyError` inside the attempt's `try`. That attempt then fails before the
  backend is called, with the same retry delays (`RequestFor` is `None`).
- **Negative delays.** With a negative `initial_retry_delay`, `time.sleep`
  raises `ValueError`. In the exception branch it raises from inside the
  handler. In the empty-text branch the handler catches it, sleeps again and
  raises again. In both cases the outer handler returns `None` and no delay is
  recorded.
- **The instruction is not sent.** The configuration is built and passed to
  `generate_content_with_retry`, but the body POSTed to the endpoint
  (lines 94-98) holds only the model, the prompt and `stream: false`. The model
  records the configuration in each request the backend receives, as the call
  at lines 152-155 passes it.

Two details of the code the model keeps exactly:
- `prompt.strip()` (line 153) removes whitespace at both ends of the prompt,
  not only the trailing newline of the last line.
- The instruction is added to the configuration only when it is truthy
  (lines 148-149): a system message with empty content leaves the
  configuration empty.

## Model

| member | source | states |
|---|---|---|
| `Text.Strip` | src/tools/openrouter_config.py:153 | `prompt.strip()` is a slice of the prompt with only whitespace (Python's `isspace` set) before and after it and none at its own ends |
| `Text.StripUnique` | src/tools/openrouter_config.py:153 | that slice is unique: any slice with whitespace around it and none at its ends is what `strip()` returns |
| `Text.StripIdempotent` | src/tools/openrouter_config.py:153 | stripping an already stripped prompt changes nothing |
| `Text.TrimStart` | src/tools/openrouter_config.py:153 | the leading-whitespace half of `strip()`: a suffix whose dropped part is all whitespace and whose first character is not |
| `Text.TrimEnd` | src/tools/openrouter_config.py:153 | the trailing-whitespace half of `strip()`: a prefix whose dropped part is all whitespace and whose last character is not |
| `Text.NatToDecimal` | src/tools/openrouter_config.py:104 | `str(status_code)` for a non-negative status is a non-empty string of decimal digits with no leading zero |
| `Text.DecimalRoundTrip` | src/tools/openrouter_config.py:104 | reading the digits of `str(n)` back gives `n` |
| `Text.IntToDecimal` | src/tools/openrouter_config.py:104 | `str(n)` uses only digits and `-`, starts with `-` exactly when `n` is negative, is the decimal text of `n` for `n >= 0` and `-` followed by the decimal text of `-n` otherwise |
| `Ollama.StatusErrorMessage` | src/tools/openrouter_config.py:103-104 | the error raised for a non-200 reply is the fixed prefix, then the status's decimal text (with `-` for a negative status), then `" - "`, then the reply's body text |
| `Ollama.StatusReadBack` | src/tools/openrouter_config.py:104 | reading the digits after the prefix of a non-200 error message back gives the reply's status |
| `Ollama.Unwrap` | src/tools/openrouter_config.py:101-112 | success exactly for status 200 with a parsed body; the value is the `response` field verbatim, or `""` when it is absent; a non-200 status raises the status error message; transport and parse failures raise their own message |
| `Ollama.Invoke` | src/tools/openrouter_config.py:114-121 | the handler re-raises every error; it pauses (5 s) exactly for the errors the decorator retries, i.e. those whose message contains `"API limit"` |
| `Ollama.StatusErrorRetriedIffMarked` | src/tools/openrouter_config.py:84 | a non-200 error is retried by the backoff decorator (is not given up on) exactly when the reply's body contains `"API limit"` |
| `Ollama.FixedPartHasNoMarkerStart` | src/tools/openrouter_config.py:104 | no character of the message's prefix, status and separator can begin an `"API limit"` match |
| `Chat.Flatten` | src/tools/openrouter_config.py:133-144 | the conversion loop succeeds exactly when no message lacks `"role"` or `"content"`, and then yields the in-order transcript and the last system content |
| `Chat.TranscriptAppend` | src/tools/openrouter_config.py:136-144 | the prompt of a concatenation of messages is the concatenation of their prompts (order is preserved) |
| `Chat.TranscriptSkips` | src/tools/openrouter_config.py:139-144 | a system message or a message with an unknown role contributes nothing to the prompt |
| `Chat.TranscriptWithoutTurns` | src/tools/openrouter_config.py:139-144 | without user or assistant messages the assembled prompt is empty |
| `Chat.TranscriptExample` | src/tools/openrouter_config.py:141-144 | user "Hi", assistant "Hello", user "Bye" give `"User: Hi\nAssistant: Hello\nUser: Bye\n"` |
| `Chat.LastSystemNone` | src/tools/openrouter_config.py:134-140 | the instruction stays `None` exactly when no message has the system role |
| `Chat.LastSystemIsLast` | src/tools/openrouter_config.py:139-140 | a system message with no system message after it gives the instruction; earlier ones are overwritten |
| `Chat.LastSystemSource` | src/tools/openrouter_config.py:139-140 | a derived instruction is the content of a system message that no later system message follows |
| `Chat.ConfigFor` | src/tools/openrouter_config.py:147-149 | the config has the key `system_instruction` exactly when the instruction is truthy (present and non-empty), maps it to the instruction, and has no other key |
| `Chat.ReplyAcceptedIff` | src/tools/openrouter_config.py:101-121 | through the error handler and the adapter's emptiness test (lines 152-157), a reply is accepted exactly when it has status 200, a parsed body and a non-empty `response` field, and the adapter then gets that field verbatim; a missing or empty field, another status and a transport or parse failure are all retried |
| `Chat.Delays` | src/tools/openrouter_config.py:161 | the delays scheduled for attempts `lo` .. `hi-1` are `initial_retry_delay * 2^j`, in order |
| `Chat.Attempt` | src/tools/openrouter_config.py:131-181 | one iteration of the attempt loop (conversion, call, empty-text branch, handler) has exactly the calls, delays and continue/return decision of one step of `Run` |
| `Chat.GetChatCompletion` | src/tools/openrouter_config.py:124-185 | the result, the requests sent and the delays slept are those of `Run` on the request the messages give; none of them when `max_retries <= 0` |
| `Chat.RunFromShape` | src/tools/openrouter_config.py:130-170 | every call receives the same request; there are at most `max_retries` calls; the delays are always a prefix of the schedule; a result is a non-empty text some call returned, unchanged |
| `Chat.FirstTextWins` | src/tools/openrouter_config.py:157-170 | if call k (k < max_retries) is the first to return a non-empty text, for a non-negative initial delay, that text is returned after exactly k+1 calls and the k delays `initial * 2^j`, j < k |
| `Chat.AllFailuresExhaust` | src/tools/openrouter_config.py:157-181 | if every call fails, for a non-negative initial delay there are exactly `max_retries` calls, delays `initial * 2^j` for j = 0 .. max_retries-2, and the result is `None` |
| `Chat.MalformedMessagesNeverCall` | src/tools/openrouter_config.py:136-138 | when a message lacks a key, every attempt fails before the call: no call, for a non-negative initial delay the full delay schedule, result `None` |
| `Chat.NoAttempts` | src/tools/openrouter_config.py:130 | with `max_retries <= 0` there is no call, no delay and the result is `None` |
| `Chat.NegativeDelayGivesUp` | src/tools/openrouter_config.py:160-185 | with a negative initial delay, the first failure that is followed by another attempt ends the call with `None` and no delay recorded |
| `Chat.RaisedLikeEmpty` | src/tools/openrouter_config.py:157-181 | an exception and an empty text at any call give the same calls, the same delays and the same result |
| `Chat.ThreeFailedAttempts` | src/tools/openrouter_config.py:124 | with the defaults (3 attempts, initial delay 1), a failing backend is called 3 times, with delays 1 and 2, and the result is `None` |
| `Chat.OneFailedAttempt` | src/tools/openrouter_config.py:160-165 | with `max_retries = 1`, a failure gives one call, no delay and `None` |
| `Chat.TerseRequest` | src/tools/openrouter_config.py:133-155 | system "Be terse" then user "2+2?" give the prompt `"User: 2+2?"` and the config `{system_instruction: "Be terse"}` |
| `Chat.TerseScenario` | src/tools/openrouter_config.py:152-170 | answered "4" on the first call, that conversation returns "4" after one call and no delay |
| `Chat.TerseOverHttp` | src/tools/openrouter_config.py:101-170 | when no reply carries a rate-limit error the decorator would retry and the endpoint's first reply is a 200 with `"response": "4"`, that conversation returns "4" after one call and no delay |

## Left out

- Logging: the logger, handler and log-directory setup, and every `logger.*` call (lines 9-49, 76 and throughout). They are process-wide I/O with no effect on results.
- `requests.post` and `response.json()` (lines 101, 107): the network call and JSON parsing are foreign code. An `Ollama.HttpOutcome` stands for them: a transport failure with its message, or a status, a body text and a parsed or unparsable payload.
- Payload values: the values of the parsed payload are strings. A `response` field holding `null` or a number is not modelled.
- The backoff decorator (lines 79-85): its exponential timing, `max_tries=5` and `max_time=300` belong to a library that is not part of this model. Only its give-up predicate (`Ollama.GiveUp`) is kept. In the adapter, one backend outcome stands for the final result of one decorated call.
- Sleeping: `time.sleep` is recorded as a delay value, not wall-clock time. The 5-second pause of the rate-limit handler is `Ollama.Invoke`'s `pauses`.
- The `OverflowError` that `time.sleep` raises for delays beyond the platform's time range is not modelled. That limit belongs to the platform, not to the source.
- Numbers: `max_retries` and `initial_retry_delay` are integers. Float delays are not modelled.
- Message shape: roles and contents are strings. Non-string values (formatted by the f-string in the source) are not modelled, and neither are messages that are not dicts.
- The `ChatMessage`, `ChatChoice` and `ChatCompletion` dataclasses and the constants `OLLAMA_API_URL` and `MODEL` (lines 57-74) carry no logic.
- `Chat.GetChatCompletion`: it requires at least `max_retries` outcomes, one for every call that can be made. This is a condition on the modelled backend, not on the source's callers.
- `Chat.ObservedAll`: one endpoint reply stands for one adapter call only for replies the decorator does not retry (successes and errors without `"API limit"`). A rate-limit reply makes the decorator POST again within the same call; those re-POSTs follow the decorator's tries and timing, which are not part of this model, so `ObservedAll` and `Chat.TerseOverHttp` require that no reply is retried by the decorator.
- Concurrency: independent concurrent callers are not modelled, because the code keeps no shared state.
