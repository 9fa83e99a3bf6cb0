# Chat-session store of a browser chat client for the Gemini API

The client keeps one mutable `state` object: the API key, the list of chats
(each an id, a title and an ordered log of user and bot messages) and the id of
the chat on screen. Its event handlers update it in place. New chat appends
"Chat n" and shows it. A sidebar click activates a chat. Rename sets a trimmed,
non-blank title. Delete removes a chat after confirmation and picks a neighbour,
or creates a fresh chat when none is left. Save key stores the trimmed key. Send
checks three guards, appends the user's message, asks the provider, and appends
the reply.

The model has four modules:

- `Text` (`text.dfy`) models JavaScript's `trim` and the decimal rendering of
  the chat number in the default title.
- `Provider` (`provider.dfy`) models how a provider outcome becomes the bot's
  reply text.
- `Session` (`session.dfy`) holds the state as values (`AppState`, `Chat`,
  `Message`). Each handler's effect is a function from the old state to the new
  one. Lemmas state what each effect promises. They also show that every handler
  keeps the invariant: the active id is null or names a listed chat, and ids are
  unique. They show that message logs only grow (`LogsGrow`).
- `Store` (`store.dfy`) is the class `ChatStore`, with the state's fields and
  one method per handler. Each method changes the fields step by step as the
  handler does. Its `ensures` equate the new state with the `Session` function
  applied to the old state. `Valid()` also says that at least one chat is
  listed. A ghost set `issued` records every id ever used, so fresh ids never
  repeat.

Dialog answers are parameters: `prompt()` becomes an `Option<string>` and
`confirm()` a `bool`. The provider's outcome is a parameter. So is the new
chat's id, which must not be in `issued`.

Two facts about the code that the model keeps:

- After deleting the active first chat, the new first chat becomes active
  (`Math.max(0, idx - 1)`).
- Ids come from `Date.now()`, so they are not guaranteed unique. The model
  makes freshness a precondition.

## Model

| member | source | states |
|---|---|---|
| `Text.TrimStart` | app.js:165 | the result is a suffix of the input; all dropped characters are white space; the result does not start with white space |
| `Text.TrimEnd` | app.js:165 | the result is a prefix of the input; all dropped characters are white space; the result does not end with white space |
| `Text.Trim` | app.js:165 | `trim()` returns text no longer than the input that neither starts nor ends with white space |
| `Text.TrimIsSlice` | app.js:165 | the trimmed text is the slice of the input between two all-white-space margins |
| `Text.TrimEmptyIff` | app.js:165-166 | the trimmed text is empty exactly when the input is all white space (the falsy test of the send and rename handlers) |
| `Text.TrimIdempotent` | app.js:196 | trimming an already trimmed key changes nothing |
| `Text.NatToDecimal` | app.js:186 | the rendered number is a non-empty string of decimal digits with no leading zero |
| `Text.DecimalRoundTrip` | app.js:186 | reading the rendered numeral back gives the number |
| `Text.DecimalInjective` | app.js:186 | different numbers render differently |
| `Provider.ReplyText` | app.js:155-159 | a success outcome replies with its text; a provider error or any failure replies with "Error: " followed by exactly the message |
| `Provider.ErrorReplyCarriesMessage` | app.js:155-159 | a provider error reads the same as a thrown failure with that message |
| `Provider.SuccessExample` | app.js:156 | a success with text "hi" replies "hi" |
| `Provider.ProviderErrorExample` | app.js:155 | a provider error "bad key" replies "Error: bad key" |
| `Session.FindChat` | app.js:169 | `find` returns the first chat whose id is the active id, and none exactly when no chat has that id (a null id matches none) |
| `Session.FindListed` | app.js:169 | with unique ids, looking up a listed chat's id finds that chat |
| `Session.ActiveMarks` | app.js:34 | one mark per sidebar entry (the result is as long as the chat list); `OneMarkedEntry` states that the marked entry is the one `find` returns for the active id |
| `Session.OneMarkedEntry` | app.js:34 | in a consistent state the sidebar marks at most one entry, marks one exactly when an active id is set, and marks exactly the entry that `find` returns for the active id, whose messages are rendered |
| `Session.NewChatTitle` | app.js:186 | the default title is "Chat " followed by digits, with no leading zero, that read as the chat count plus one |
| `Session.NewChatTitleInjective` | app.js:186 | different chat counts give different default titles |
| `Session.WithNewChat` | app.js:184-188 | no contract of its own: the new-chat transition; `NewChatAppends` and `NewChatInvariants` state its meaning |
| `Session.NewChatAppends` | app.js:184-188 | new chat appends exactly one chat with the given id, the next default title and no messages; it becomes active; earlier chats and the key are unchanged |
| `Session.NewChatInvariants` | app.js:185-188 | with a fresh id, new chat keeps ids unique and the active id listed, and no log shrinks |
| `Session.WithActive` | app.js:89 | no contract of its own: the activate transition; `ActivateSelects` states its meaning |
| `Session.ActivateSelects` | app.js:88-89 | activating entry idx changes only the active id, and the active chat is then that entry; the invariant holds |
| `Session.WithTitle` | app.js:51-53 | no contract of its own: the rename transition; `RenameTitles` and `RenameInvariants` state its meaning |
| `Session.RenameTitles` | app.js:51-53 | a dismissed or blank answer changes nothing; otherwise only the title of that chat changes, to the trimmed non-empty answer; ids, logs, the active id and the key stay |
| `Session.RenameInvariants` | app.js:53 | rename keeps the invariant and every log |
| `Session.Neighbour` | app.js:70 | no contract of its own: `Math.max(0, idx - 1)`; `DeleteRemovesEntry` states where the new active chat is |
| `Session.RemoveAt` | app.js:67 | `splice(idx, 1)` leaves one entry fewer; `RemoveAtKeepsOrder` states which entries remain and in what order |
| `Session.RemoveAtKeepsOrder` | app.js:67 | `splice(idx, 1)` removes exactly entry idx and keeps the other entries in their order |
| `Session.Cleared` | app.js:67-74 | no contract of its own: the splice and the choice of the new active id, before any replacement chat; `ClearedInvariants` states that it keeps the invariant and the order |
| `Session.AfterDelete` | app.js:66-77 | no contract of its own: the whole delete transition; `DeleteRemovesEntry`, `DeleteLastChat` and `DeleteInvariants` state its meaning |
| `Session.DeleteRemovesEntry` | app.js:66-74 | a declined confirmation changes nothing; otherwise entry idx is removed and the others keep their order; if it was active, the chat now at max(0, idx-1) becomes active, else the active id stays |
| `Session.DeleteLastChat` | app.js:71-77 | deleting the only chat leaves exactly one chat: a fresh, active, empty "Chat 1" |
| `Session.DeleteInvariants` | app.js:67-77 | with a fresh replacement id, delete keeps ids unique and the active id listed, never empties the list, and no surviving log shrinks |
| `Session.WithKey` | app.js:196 | no contract of its own: the save-key transition; `SaveKeyStores` states its meaning |
| `Session.SaveKeyStores` | app.js:196 | saving stores the trimmed input as the key and changes nothing else; saving the stored key again is a no-op |
| `Session.SubmitStatus` | app.js:165-170 | send stops on a blank prompt, then on an empty key, then when no chat has the active id; otherwise it submits the trimmed prompt for the active, listed chat |
| `Session.AppendMessage` | app.js:172-178 | no contract of its own: `messages.push` on the chat with that id; `AppendMessageGrowsLog` states its meaning |
| `Session.AppendMessageGrowsLog` | app.js:172 | pushing a message grows only the log of the chat with that id, by that message; an unlisted id changes nothing; the invariant holds |
| `Session.AfterSubmit` | app.js:165-172 | no contract of its own: the first half of send, up to the request; `SubmitInvariants` and `SendAppendsExchange` state its meaning |
| `Session.AfterDeliver` | app.js:177-178 | no contract of its own: the second half of send, pushing the reply; `AppendMessageGrowsLog` states its meaning |
| `Session.AfterSend` | app.js:164-181 | no contract of its own: both halves of send with nothing in between; `SendAppendsExchange` states its meaning |
| `Session.SendAppendsExchange` | app.js:164-181 | a failed guard changes nothing; otherwise the active chat's log grows by the user's trimmed text and then the reply, and everything else stays |
| `Session.SubmitInvariants` | app.js:172 | the first half of send keeps the invariant and only appends |
| `Session.Loaded` | app.js:22-26 | no contract of its own: the load-time defaults and the first chat of app.js:210-212; `LoadRestores` states its meaning |
| `Session.LoadRestores` | app.js:22-26 | a consistent saved state loads consistent and with at least one chat; a saved non-empty state reloads unchanged, every message log included |
| `Store.ChatStore.Load` | app.js:210-212 | the loaded store is valid and equals the saved state with defaults applied, plus a first chat if none was saved; the ids in use are exactly the saved ones and that first chat's |
| `Store.ChatStore.NewChat` | app.js:184-188 | the store's new state is the new-chat transition of the old one, and it is valid |
| `Store.ChatStore.Activate` | app.js:88-90 | the new state is the activate transition of the old one, and it is valid |
| `Store.ChatStore.Rename` | app.js:49-57 | the new state is the rename transition of the old one; it is valid and no log shrinks |
| `Store.ChatStore.Delete` | app.js:64-82 | the new state is the delete transition of the old one, including the replacement chat; it is valid, non-empty, and no surviving log shrinks |
| `Store.ChatStore.SaveKey` | app.js:195-196 | the new state is the save-key transition of the old one, and it is valid |
| `Store.ChatStore.SubmitPrompt` | app.js:164-175 | returns which guard stopped the send or the captured chat and prompt, and appends the user message as the submit transition says |
| `Store.ChatStore.DeliverReply` | app.js:177-178 | appends the reply for the outcome to the captured chat if it is still listed; the new state is valid |
| `Store.ChatStore.Send` | app.js:164-181 | the new state is the send transition of the old one; a failed guard leaves the state as it was; otherwise only the active chat's log grows, by the user's trimmed text and then the reply |

## Left out

- Rendering is not modelled: the sidebar, the message bubbles, the typing indicator and scrolling (app.js:30-139). Only the sidebar's "active" marking is stated, as `Session.ActiveMarks`.
- `marked.parse` and `DOMPurify.sanitize` (app.js:113-114) are foreign libraries whose code is not part of this model.
- The HTTP request, its URL and body, and `res.json()` (app.js:145-153) are network I/O. Their result is the `Provider.Outcome` parameter.
- `Provider.ReplyText`: a `Success` always carries a string. A missing `candidates`, `content` or `parts` throws in the source and is a `Failure` here. A first part without `text` is not modelled: the source then returns `undefined` without throwing and stores a bot message whose text is `undefined`. An `error` member that JavaScript treats as falsy is not distinguished either.
- `localStorage` and JSON (app.js:4-10) are storage I/O. `saveState` is a snapshot, which is `State()`. A save that throws (storage full) is not modelled: in the source it would abort the handler partway, leaving for instance an empty list after a delete.
- `Store.ChatStore.Load`: requires the saved state to be consistent. The source trusts whatever storage holds, but only `saveState` writes it. A saved value always has all three fields, so `chats ||= []` and `apiKey ||= ''` act as identities.
- `Date.now()` ids (app.js:185) depend on the clock. The id is a parameter that must be fresh, so ids that collide are not modelled. A fresh id may be the empty string, which `Date.now().toString()` never returns; such an id, once active, would be read back as null on reload, which is why `Session.LoadRestores` excludes a saved active id of "".
- `Store.ChatStore.Delete`: takes a fresh id on every call, though it is used only when the list becomes empty.
- Concurrency is not modelled. A send is two steps, `SubmitPrompt` and `DeliverReply`, and the second carries the captured chat id. The source pushes a reply for a deleted chat onto a detached object that the state no longer holds. The model drops that reply, so the state is the same.
- Chats are values, not shared objects. Changing a chat in place (title, `messages.push`) replaces its entry in `chats`. The delete handler's index is the entry's current index, because the sidebar is rebuilt after every change to the list.
- Dialogs and input fields are UI: `alert` (app.js:167, 198), clearing the prompt field (app.js:174), showing the key (app.js:27) and the key bindings (app.js:202-208). A missing key shows up only as the `MissingKey` status.
