# Velquity SMS webhook — a Dafny model

Velquity is a small Express server. It answers Twilio's SMS webhook with a
reply from a language model. Each request carries the form fields `Body` and
`From`. The handler does the following:

- It trims the message text.
- It looks up the sender's short conversation memory.
- It builds the prompt: a system message, the remembered turns, and the new
  user message.
- It asks the model for a completion and takes the trimmed answer as the
  reply. When the answer is blank or absent it keeps a fixed default reply.
- It stores the memory again, cut to the last eight turns.
- It answers with a TwiML document: `<Response><Message>`, then the reply
  clamped to 300 characters and XML-escaped, then `</Message></Response>`.

When the model call fails, the memory is left alone and a fixed apology is
sent instead.

The project has four modules:

- `Wrappers` (`wrappers.dfy`) holds the `Option` type. It stands for a form
  field or a completion field that may be missing.
- `Text` (`text.dfy`) models the helper `clampSms`. Its pieces are:
  - JavaScript's white-space class and `trim()`.
  - The `replace(/\s+/g, " ")` collapse.
  - `slice` with its negative-end rule.
  - A reference definition of normalisation: the words of the text joined by
    single spaces.
- `Xml` (`xml.dfy`) models the helper `x`, the escaper, as its chain of five
  global replacements. It is paired with an independent per-character
  definition and with an entity decoder. The decoder exists only so that the
  round trip can be stated.
- `Webhook` (`webhook.dfy`) models the handler:
  - the request defaults;
  - the choice of reply;
  - the `slice(-8)` memory, with lemmas about repeated exchanges;
  - the response envelope;
  - the `Store` class. It owns the `conversations` map and provides
    `HandleMessage`, the route itself.

  The language model is the parameter `complete` of `HandleMessage`. It is a
  function from the prompt to an outcome: `Completed(content)` when the call
  returns, or `Failed` when it throws.

## Model

| member | source | states |
|---|---|---|
| Text.TrimStart | index.js:20 | The result is a suffix of the input that does not start with white space, and everything removed is white space. |
| Text.TrimEnd | index.js:20 | The result is a prefix of the input that does not end with white space, and everything removed is white space. |
| Text.Trim | index.js:20 | The result is no longer than the input and has no white space at either end. It is empty exactly when the input is all white space. |
| Text.TrimRemovesOnlyEnds | index.js:20 | `trim()` keeps a contiguous part of the input unchanged, and everything before and after that part is white space. |
| Text.CollapseRuns | index.js:20 | The collapsed text is no longer than the input. Its exact content is stated by `Text.CollapseShape`. |
| Text.Normalize | index.js:20 | The normalised text is no longer than the input. `Text.NormalizeIsJoin` states that it is the text's words joined by single spaces. |
| Text.CollapseShape | index.js:20 | Collapsing the white-space runs gives the words joined by single spaces. One space is added in front when the text starts with white space. One space is added at the end when the text has a word and ends with white space. |
| Text.NormalizeIsJoin | index.js:20 | Collapsing and then trimming is the same as joining the text's words with single spaces. |
| Text.WordsOfJoin | index.js:20 | Splitting words joined by single spaces gives back exactly those words. |
| Text.NormalizeIsNormalized | index.js:20 | Normalised text has no white space at either end. Every white-space character in it is a single plain space between two non-space characters. |
| Text.NormalizedFixpoint | index.js:20 | Normalising leaves a text unchanged exactly when the text is already normalised. |
| Text.NormalizeIdempotent | index.js:20 | Normalising twice is the same as normalising once. |
| Text.SliceTo | index.js:21 | The result is always a prefix of the input. An end within bounds takes exactly that many characters, and an end at or past the length takes the whole text. A negative end drops that many characters from the back, or everything when it exceeds the length. |
| Text.Clamp | index.js:18-22 | An empty input gives an empty result. A normalised text that fits is returned unchanged. A longer one becomes its first max-1 characters followed by `…`, with length exactly max. For max ≥ 1 the result is never longer than max. |
| Text.ClampSms | index.js:18-22 | With the default limit of 300, the result is at most 300 characters. A text whose normalised form fits is sent as that normalised form. |
| Xml.ReplaceChar | index.js:27-31 | A global replacement of one character leaves no occurrence of it when the replacement text does not contain it. Every character of the result is either a character of the input other than the replaced one, or a character of the replacement text. |
| Xml.Escape | index.js:25-32 | The escaped text contains no `<`, `>`, `"` or `'`. |
| Xml.EscapeAppend | index.js:25-32 | Escaping distributes over concatenation. |
| Xml.EscapeChar | index.js:25-32 | Each of the five special characters becomes its entity reference. Every other character is kept as it is. |
| Xml.EscapeIsPerChar | index.js:25-32 | The chain of five replacements equals escaping each character independently and concatenating the pieces. In particular `&` is replaced first, so no entity is escaped twice. |
| Xml.EscapedIsWellFormed | index.js:25-32 | Every `&` in escaped text begins one of the five entity references, and no `<` or `>` remains. |
| Xml.UnescapeEscape | index.js:25-32 | Decoding the five entity references in escaped text gives back the original text. |
| Webhook.Sender | index.js:37 | The sender is never empty. It is the `From` field when that is present and non-empty, and `unknown` otherwise. |
| Webhook.Incoming | index.js:36 | A missing body gives an empty message. Otherwise the message is a contiguous part of the body with only white space before and after it. |
| Webhook.IncomingTrimmed | index.js:36 | A missing body gives an empty message. Otherwise the message is the body with only its surrounding white space removed: no longer than the body, with no white space at either end, and empty exactly when the body is all white space. |
| Webhook.FixedRepliesTrimmed | index.js:40-146 | The default reply (51 characters, line 40) and the apology (97 characters, line 146) have no white space at either end. |
| Webhook.Pick | index.js:134 | A missing or all-white-space content gives the fallback. Any other content gives a non-empty contiguous part of it, with only white space around it. |
| Webhook.ReplyFor | index.js:134-146 | A failed call gives the apology. Every reply is non-empty and has no white space at either end. |
| Webhook.ReplyForCases | index.js:134-146 | A failed call gives the apology. A missing or all-white-space completion keeps the default reply. Any other completion is sent trimmed. The reply is never empty and has no white space at either end. |
| Webhook.Recent | index.js:143 | `slice(-8)` holds at most eight elements and no more than its input. `Webhook.RecentIsSlice` states which ones. |
| Webhook.RecentIsSlice | index.js:143 | `slice(-8)` keeps the last min(8, length) elements of the sequence, in order. |
| Webhook.RecentAppend | index.js:143 | Cutting to the last eight, appending, and cutting again is the same as appending and cutting once. |
| Webhook.Remember | index.js:138-143 | The new memory holds between two and eight turns and ends with the user turn for the message followed by the assistant turn for the reply. |
| Webhook.RememberEnds | index.js:138-143 | The new memory ends with the user turn for the message followed by the assistant turn for the reply. |
| Webhook.RememberEarlier | index.js:138-143 | The turns before the last two in the new memory are the most recent turns of the old memory, in order. |
| Webhook.RememberShort | index.js:138-143 | When the old memory has at most six turns, nothing is dropped. |
| Webhook.RememberShape | index.js:138-143 | The new memory holds between two and eight turns. It ends with the message and the reply, and before them it holds a suffix of the old memory. |
| Webhook.RememberAlternates | index.js:138-143 | A memory made of whole user/assistant exchanges stays that way after an exchange, because eight is even. |
| Webhook.Transcript | index.js:138-142 | A sequence of exchanges contributes two turns per exchange. |
| Webhook.ReplayKeepsRecent | index.js:137-143 | After any number of successful exchanges, the memory is the last eight turns of (the old memory followed by the turns of all those exchanges). |
| Webhook.ResponseBody | index.js:150 | The answer starts with `<Response><Message>` and ends with `</Message></Response>`. The text between them holds no `<`, `>`, `"` or `'`. |
| Webhook.ResponseBodyDecodes | index.js:150 | The answer is `<Response><Message>`, a message text, and `</Message></Response>`. The message text holds no `<` or `>`, every `&` in it begins an entity, and it decodes to the clamped reply of at most 300 characters. |
| Webhook.Store.constructor | index.js:15 | The server starts with an empty conversation map. |
| Webhook.Store.History | index.js:43 | An unknown sender has an empty memory. Under the store invariant, a memory holds at most eight turns made of whole exchanges. |
| Webhook.Store.Record | index.js:137-143 | Only the sender's entry is written. It becomes the last eight turns of (the old memory followed by the new exchange). The invariant is kept and no other sender's memory changes. |
| Webhook.Store.HandleMessage | index.js:35-151 | The prompt is the system message, the sender's old memory, and the user message. The response is the envelope around the escaped, clamped reply for the call's outcome. On failure the conversation map is unchanged. On success only the sender's entry changes, and it becomes the remembered exchange. Every memory keeps at most eight turns of whole exchanges. |

## Left out

- The HTTP server (Express routing, URL-encoded body parsing, the content type of the response) is not modelled. The handler takes the two form fields as optional strings and returns the response body.
- The OpenAI client is not modelled. The choice of model, temperature and `max_tokens`, and the usage counters are all outside the model. The call is the parameter `complete`, and any exception it raises is the outcome `Failed`.
- The system prompt's text is not reproduced. It is the constructor parameter `systemPrompt` of `Store`.
- Console logging is left out.
- Concurrent requests are not modelled. Two requests from the same sender that overlap across the awaited call can overwrite each other's memory update. The model handles one request at a time.
- JavaScript strings are UTF-16. Here a character is a Unicode scalar value, so lengths count characters, not code units. A surrogate pair that would be split by the 300-character cut is not modelled.
- Form fields that are arrays or other non-string values are not modelled. The same goes for a non-string `t` passed to `clampSms` and a non-string model content. Fields are either absent or strings.
- Text.Clamp: the bound of at most `max` characters is stated only for `max` ≥ 1. For `max` ≤ 0, JavaScript's `slice` with a negative end counts from the back, so a non-empty text gives a result longer than `max`. The only caller uses 300.
- Xml.UnescapeEscape: the decoder `Unescape` is not part of the source. It is an independent partner that decodes the five entities, with `&amp;` last, and serves to state that escaping loses nothing.
- Webhook.Store.HandleMessage: an exception raised after the reply was chosen is not modelled. Only the model call can fail, which matches the code, since nothing after the call can throw for string inputs.
