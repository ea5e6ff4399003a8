# Chat page conversation model

A Dafny model of the logic inside the `App` component of a single-page chat
client that forwards each question to a hosted language model and shows the
answer. Two pieces are modelled:

- **The conversation state** (`conversation.dfy`, module `Conversation`): a
  `Session` class holding `aiOutput`, the ordered list of `{text, isBot}`
  messages seeded with one bot greeting, and `input`, the text buffer behind the
  input box. Its methods are the page's handlers: `SendRequest` (send button),
  `HandleEnter` (key-down in the input box), `HandleQuery` (preset-query
  buttons) and `SetInput` (typing). Each dispatch records the question as a user
  message and then appends exactly one bot message: the model's text on
  success, or the fixed text `Error occurred while fetching response from AI.`
  on any failure. The free-text path snapshots the buffer, clears it before the
  model answers, and sends and records the snapshot.
  The hosted model is an oracle parameter `api: string -> Outcome`, with
  `Outcome = Success(text) | Failure`. Every dispatch consults it exactly once,
  with the query it records, so the contracts can say which prompt was sent.
  A ghost counter `dispatches` and the invariant `Valid()` give the shape every
  reachable conversation has: the greeting, then pairs of a question and its
  one answer.
- **The message renderer** (`rendering.dfy`, module `Rendering`): the pure
  function `RenderMessage`. It splits a message's text on the triple-backtick
  fence, leftmost and non-overlapping, as a regular-expression split does. It
  tags odd-numbered pieces as code blocks and even-numbered ones as paragraphs.
  Text without a fence becomes a single paragraph. `Split` is proved to be the
  unique decomposition at leftmost fences. Joining its pieces with the fence
  gives back the text (`JoinSplit`), and it yields one piece more than there
  are fences.

Loading the page, and "New Chat" (a full page reload), correspond to
constructing a fresh `Session`.

## Model

| member | source | states |
|---|---|---|
| `Conversation.Session.constructor` | src/App.js:16-17 | A new session holds exactly one message, the bot greeting with its fixed text, and an empty input buffer. |
| `Conversation.Session.SetInput` | src/App.js:143 | Typing replaces the input buffer and leaves the conversation untouched. |
| `Conversation.Session.SendRequest` | src/App.js:24-55 | The old conversation stays a strict prefix. Exactly two messages are appended, as defined by `Exchange` and `Reply`: the pre-clear buffer as a user message, then the reply to that same buffer text (the model's text on success, the fixed error text on failure). The buffer ends empty whatever the outcome. |
| `Conversation.Session.HandleEnter` | src/App.js:57-59 | The Enter key has exactly the effect of `SendRequest`. Any other key leaves the conversation, the buffer and the dispatch count unchanged. |
| `Conversation.Session.HandleQuery` | src/App.js:61-88 | The old conversation stays a strict prefix. The same two messages as a free-text dispatch of the query are appended, and the input buffer is not touched. |
| `Conversation.Session.ClickPreset` | src/App.js:116-117 | Corrected click: a click anywhere inside preset button `button` appends that button's label as the question and the reply to it, leaves the buffer alone and keeps the invariant. |
| `Conversation.ButtonValue` | src/App.js:116-117 | Corrected read: the query is always one of the preset labels, and it agrees with the as-written read whenever that read yields a value. |
| `Conversation.IconClickReadsNoQuery` | src/App.js:62 | As written, a click on either preset button's icon yields no query string. |
| `Conversation.IconClickSendsLabel` | src/App.js:116-117 | With the corrected read, a click on the icon sends the same label as a click on the button body. |
| `Conversation.ExchangeKeepsTurns` | src/App.js:28-54 | Appending a question and its reply to a well-shaped conversation (greeting, then user/bot pairs) keeps it well shaped. |
| `Conversation.AuthorsPartition` | src/App.js:16-88 | Every message is authored by exactly one of the user and the bot, so the two counts add up to the length of the conversation. |
| `Conversation.PairCounts` | src/App.js:28-53 | Appending a user message and then a bot message raises the user count and the bot count by exactly one each. |
| `Conversation.TurnsCounts` | src/App.js:17-88 | In a well-shaped conversation of length n there are n/2 user messages and one more bot message than user messages. |
| `Conversation.DispatchesAnswered` | src/App.js:24-88 | In any reachable session the number of user messages equals the number of dispatches, and the number of bot messages is that plus one (the greeting). Every dispatch got exactly one answer. |
| `Conversation.PresetMatchesTyped` | src/App.js:24-88 | On a new page, clicking a preset button and typing the same text then submitting it give the same conversation: greeting, question, reply. |
| `Rendering.Split` | src/App.js:93 | Splitting always yields at least one piece, even for empty text. |
| `Rendering.JoinSplit` | src/App.js:93 | Joining the split pieces with the fence gives back the original text. |
| `Rendering.SplitCount` | src/App.js:93 | The split yields exactly one piece more than the number of fences the scan finds. |
| `Rendering.CountContains` | src/App.js:92-93 | The scan finds a fence exactly when the text includes one. |
| `Rendering.FenceStep` | src/App.js:93 | A fence at the front of a text adds an empty first piece to a valid decomposition. |
| `Rendering.CharStep` | src/App.js:93 | A character that does not start a fence is prepended to the first piece of a valid decomposition. |
| `Rendering.SplitIsSplitOf` | src/App.js:93 | The split is a decomposition at leftmost fences: it joins back to the text, no fence starts inside a piece or runs from a piece into the fence after it, and the last piece holds no fence. |
| `Rendering.DropFence` | src/App.js:93 | A decomposition whose first piece is empty belongs to a text starting with a fence, and its other pieces decompose the text after that fence. |
| `Rendering.DropChar` | src/App.js:93 | A decomposition whose first piece is not empty belongs to a text whose first character does not start a fence, and dropping that character from the first piece decomposes the rest. |
| `Rendering.SplitUnique` | src/App.js:93 | Any decomposition with that shape is the split, so the split is fully characterised. |
| `Rendering.PiecesFenceFree` | src/App.js:93 | No piece of the split contains a fence. |
| `Rendering.RenderMessage` | src/App.js:90-102 | The segments are the split pieces in order, with one more segment than fences. Exactly the odd positions are code blocks. Joining their texts with the fence gives back the message text. |
| `Rendering.RenderWithoutFence` | src/App.js:92-101 | Text without a fence renders as exactly one paragraph holding the whole text. |
| `Rendering.RenderWithFence` | src/App.js:92-98 | Text with a fence renders as at least two segments, none of which contains a fence. |
| `Rendering.RenderIsTagSplit` | src/App.js:90-102 | Both branches agree with tagging the split pieces, so the check for a fence does not change the result. |
| `Rendering.RenderExample` | src/App.js:90-102 | The text ``a```code```b`` renders as paragraph `a`, code block `code`, paragraph `b`. |

## Left out

- The hosted model client (`GoogleGenerativeAI`, `getGenerativeModel`, `generateContent`, `response.text()`): a foreign network library. It is replaced by the `api` oracle parameter, and any thrown error is the `Failure` outcome.
- The API key read from the environment: configuration plumbing with no behaviour to model.
- `console.log` and `console.error` diagnostics: output only.
- The scroll-to-newest effect (`useEffect`, `useRef`): a DOM side effect.
- All JSX layout, CSS classes, icons and sidebar links. The labels of the two preset buttons are kept as `PresetQueries`, and where a click lands inside a button is kept as `ClickTarget`.
- Conversation.Session.HandleQuery: takes its query as a string, so it does not model the path where a click on a button's icon reads `undefined` as the query (src/App.js:62, 116-117). The code as written would then append a message whose text is `undefined`, and the next render would throw at `msg.text.includes` (src/App.js:92). This is a discrepancy in the source, recorded under "## Findings". `TargetValue` models the read as written, and `ClickPreset` dispatches the button's own label instead.
- `window.location.reload()` for New Chat: a browser reload. It corresponds to constructing a new `Session`.
- `e.preventDefault()`: a DOM event detail.
- Interleaving of concurrent in-flight dispatches. The handler suspends while the model call is pending, so another dispatch could append between its two appends. The model runs each dispatch as one atomic step, so the question-then-answer adjacency it proves holds only for dispatches that do not overlap.
- React's deferred state updates: the functional `setAiOutput(prev => ...)` updaters are modelled as direct, in-order updates of the field. Because each updater appends to whatever the latest list is, this gives the same final list for a dispatch run on its own.
- Neither handler guards against an empty query (src/App.js:24-37, 61-71), so no method requires a non-empty one and an empty buffer is dispatched like any other text.

## Findings

| source | as written | input that shows it | evidently intended | confidence | as-written member | corrected member |
|---|---|---|---|---|---|---|
| src/App.js:62, 116-117 | `handleQuery` reads the query from `e.target.value`, the element the click landed on | a click on the `<img>` icon inside either preset button: the image has no `value`, so the query is `undefined`; a message with text `undefined` is appended, and `msg.text.includes` then throws at src/App.js:92 | the query is the clicked button's own label (`e.currentTarget.value`), wherever inside the button the click lands | not executed (read from the code) | `Conversation.IconClickReadsNoQuery` | `Conversation.Session.ClickPreset`, `Conversation.IconClickSendsLabel` |
