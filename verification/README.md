# Chat window session bookkeeping, in Dafny

This project models the session bookkeeping of the `ChatWindow` React
component (`src/components/ChatWindow.js`) of a real-time chat client.
Without React and MUI, the component is a small sequential state machine.
Its state has these parts:

- the ordered list of chat sessions `{id, name, createdAt}`;
- the current session, which may be absent;
- the visible message list;
- two browser-storage entries. `chatSessions` holds the session list.
  `sessionMessages` maps a session id to that session's ordered messages.
  This map lives only in storage: every handler that changes it reads the
  whole map, changes it and writes it back.

Each handler and effect of the component is a pure function from one state
to the next:

- the mount effect (`Init`);
- the socket/current-session effect that reloads the view (`Refresh`);
- `createNewSession`, `switchSession` and `handleDeleteSession`;
- the guard and payload of `sendMessage`;
- the inbound `message` handler (`Receive`).

`Step` runs one event through its handler and then through the effect that
React re-runs after it. `Run` folds `Step` over a sequence of events.

Files and modules:

- `wrappers.dfy` (`Wrappers`): `Option`, used for JavaScript's
  `null`/`undefined` and for absent storage keys.
- `js_text.dfy` (`JsText`): `String.prototype.trim` (the send guard) and the
  decimal rendering of a number in a template literal (the session name).
- `chat_state.dfy` (`ChatState`): `Session`, `Message`, `Storage` and
  `Chat`; reading storage with its defaults; the session filter used by
  delete.
- `chat_window.dfy` (`ChatWindow`): the transitions, `Step` and `Run`.
- `chat_properties.dfy` (`ChatProperties`): the invariant every event keeps
  and the properties of each transition.

The environment is passed in as parameters:

- session ids (from `Date.now()`) and timestamps (from `new Date()`);
- the delete confirmation (`window.confirm`);
- the signed-in user's id.

Whether the component holds a socket is the boolean `socket`. An emit on the
socket is the message a `Send` step returns.

Behaviour of the code worth knowing, which the model follows as written:

- The inbound handler files a message under the current session. It
  ignores the session id the message carries (line 67). So the index can
  hold, under key `k`, messages whose `sessionId` is not `k`.
  `InboundIgnoresMessageSession` states this. `EchoAfterSwitch` shows
  the consequence: an echo that arrives after a switch lands in the
  session switched to.
- With no stored sessions, the mount effect reads
  `sessionMessages[undefined]`, which is the key `"undefined"` (line 50).
  So the view is not always empty when there is no current session.
  `InitWithoutSessions` states what it shows. `ViewConsistent`
  therefore constrains the view only when a current session exists.
- `createNewSession` does not reset the view. Only the effect at lines
  73-74 does, and it runs only while a socket is held. Without a socket,
  the new session is current while the old list is still shown
  (`CreateWithoutSocketKeepsView`). The invariant `Coherent` therefore ties
  the view to storage only while a socket is held.
- Ids are not guaranteed unique. `Date.now()` can repeat. Uniqueness is
  proved only for creations whose ids are fresh (`CreateRun`).
- A missing storage key reads as empty. Malformed JSON would throw; it is
  not treated as empty.
- Session names come from the list length (line 112). A deletion followed
  by a creation can therefore repeat a name (`NameRepeatsAfterDelete`).

## Model

| member | source | states |
|---|---|---|
| JsText.Trim | src/components/ChatWindow.js:130 | `message.trim()` is an infix of the text with only whitespace and line terminators around it. It is empty exactly when every character is whitespace or a line terminator. |
| JsText.StripBoth | src/components/ChatWindow.js:130 | Stripping both ends leaves an infix with strippable characters on either side and none at its ends. It is empty exactly when the whole text is strippable. |
| JsText.StripLeading | src/components/ChatWindow.js:130 | The result is a suffix that does not start with a strippable character. Everything removed is strippable. |
| JsText.StripTrailing | src/components/ChatWindow.js:130 | The result is a prefix that does not end with a strippable character. Everything removed is strippable. |
| JsText.NatToString | src/components/ChatWindow.js:112 | The number in the session name renders as at least one decimal digit, with no leading zero unless it is 0. |
| JsText.DecimalRoundTrip | src/components/ChatWindow.js:112 | Reading the rendered digits back gives the number. |
| JsText.NatToStringInjective | src/components/ChatWindow.js:112 | Two numbers render the same exactly when they are equal. |
| ChatState.WithoutMembers | src/components/ChatWindow.js:93 | The filter keeps exactly the sessions whose id differs from the deleted one. |
| ChatState.WithoutConcat | src/components/ChatWindow.js:93 | The filter distributes over concatenation, so survivors keep their relative order. |
| ChatState.WithoutAbsent | src/components/ChatWindow.js:93 | Deleting an id that no session carries leaves the list as it was. |
| ChatState.WithoutFirst | src/components/ChatWindow.js:102 | The first survivor is the first list element whose id differs from the deleted one. |
| ChatState.WithoutUnique | src/components/ChatWindow.js:93 | Filtering keeps ids unique. |
| ChatWindow.SessionName | src/components/ChatWindow.js:112 | The generated name is "Chat " followed by decimal digits that read back as the list length plus one, with no leading zero. |
| ChatWindow.Init | src/components/ChatWindow.js:43-51 | On mount, sessions are read from storage with no socket yet. A non-empty list makes element 0 current and shows its stored history. An empty list leaves no current session and shows the entry under "undefined", or nothing. |
| ChatWindow.Refresh | src/components/ChatWindow.js:61-78 | With a socket and a current session, the effect reloads the view so that it shows the current session's stored history. Otherwise it changes nothing. It never changes the list, the current session or storage. |
| ChatWindow.CreateSession | src/components/ChatWindow.js:109-119 | The new session goes at the end, named "Chat n+1", and becomes current. Earlier sessions keep their order. The stored list equals the new list. The stored index and the view are untouched. |
| ChatWindow.SwitchSession | src/components/ChatWindow.js:121-126 | The target becomes current and the view shows its stored history. The list, storage and socket are unchanged. |
| ChatWindow.DeleteSession | src/components/ChatWindow.js:89-107 | Unconfirmed, nothing changes. Confirmed, the list becomes the filtered list, both keys are rewritten and the index loses exactly the id. If the current session is deleted, the first survivor becomes current and the view follows it; with no survivor the view is empty. Otherwise the current session and view stay. |
| ChatWindow.SendMessage | src/components/ChatWindow.js:128-140 | A message is emitted exactly when the text has a character that is not whitespace, a socket is held, the user id is non-empty and a session is current. It carries the untrimmed text, the user id and the current session id. |
| ChatWindow.Receive | src/components/ChatWindow.js:61-71 | With a socket and a current session, the view gains the message at its end. The index entry of the current session becomes that view, and all other entries and the session list stay. Otherwise nothing changes. |
| ChatWindow.Step | src/components/ChatWindow.js:128-140 | Only a send emits a message, and a send changes no state. |
| ChatProperties.InitCoherent | src/components/ChatWindow.js:43-51 | Any storage loads into a state that satisfies the invariant. |
| ChatProperties.InitWithoutSessions | src/components/ChatWindow.js:46-50 | With no stored sessions there is no current session, and the view is the entry stored under "undefined", or empty when there is none. |
| ChatProperties.InitMissingKeys | src/components/ChatWindow.js:44-50 | A storage key that was never written reads as empty. A missing `chatSessions` gives no sessions and no current session; a missing `sessionMessages` gives an empty view. |
| ChatProperties.PersistReload | src/components/ChatWindow.js:43-51 | Reloading a coherent state gives back the same session list and index, with the first session current. |
| ChatProperties.StepPreservesCoherent | src/components/ChatWindow.js:61-126 | Every event keeps the invariant. The stored list mirrors the in-memory one, the current session is listed, and with a socket the view shows the current session's stored history. |
| ChatProperties.RunPreservesCoherent | src/components/ChatWindow.js:61-126 | Any admissible sequence of events keeps the invariant. |
| ChatProperties.CreateWithSocketShowsNewSession | src/components/ChatWindow.js:73-74 | With a socket, a creation shows the new session's stored history. That history is empty for an id the index has never seen. |
| ChatProperties.CreateWithoutSocketKeepsView | src/components/ChatWindow.js:109-119 | Without a socket, a creation leaves the previous view on screen while the new session is current. |
| ChatProperties.CreateRun | src/components/ChatWindow.js:109-119 | Creations with fresh ids append one session each, in order, named after the list length. Ids stay unique and nothing is emitted. |
| ChatProperties.RunCreateEvents | src/components/ChatWindow.js:115-117 | Running creation events builds exactly the appended list and emits nothing. |
| ChatProperties.AppendCreatedFacts | src/components/ChatWindow.js:110-115 | The appended list keeps the old list as a prefix, names each new session after the list length, and keeps ids unique. |
| ChatProperties.CreateNamesFromEmpty | src/components/ChatWindow.js:112 | Starting from no sessions, the created sessions are named "Chat 1", "Chat 2", and so on, with no name repeated. |
| ChatProperties.NameRepeatsAfterDelete | src/components/ChatWindow.js:89-119 | Starting from no sessions, creating two, deleting the first and creating a third leaves two sessions both named "Chat 2": the new session repeats the survivor's name. |
| ChatProperties.SwitchRefreshIdempotent | src/components/ChatWindow.js:121-126 | The effect re-run after a switch changes nothing. |
| ChatProperties.SwitchAwayAndBack | src/components/ChatWindow.js:61-74 | Messages received while a session is current reappear after switching away and back. They come after its earlier history, in arrival order. The other session's history is untouched. |
| ChatProperties.DeleteUnconfirmedIsNoop | src/components/ChatWindow.js:90-92 | A refused confirmation leaves the state unchanged and emits nothing. |
| ChatProperties.DeleteRemovesFromList | src/components/ChatWindow.js:93-99 | A confirmed delete removes every session with the id and keeps the rest in order. The stored list is rewritten to match. |
| ChatProperties.DeleteRemovesFromIndex | src/components/ChatWindow.js:96-98 | A confirmed delete removes the id's index entry and keeps every other entry. |
| ChatProperties.DeleteSurvivesReload | src/components/ChatWindow.js:96-99 | After a confirmed delete, a reload never brings the id back into the list or the index. |
| ChatProperties.DeleteMovesCurrent | src/components/ChatWindow.js:101-105 | Deleting the current session makes the first old-list session with another id current, or none with an empty view. Deleting another id leaves the current session and the view alone. |
| ChatProperties.DeleteKeepsIdsUnique | src/components/ChatWindow.js:93 | Deleting keeps ids unique. |
| ChatProperties.DeleteOnlySession | src/components/ChatWindow.js:101-105 | Deleting the only, current session leaves no current session and an empty view. A later send emits nothing. |
| ChatProperties.SendStampsCurrentSession | src/components/ChatWindow.js:128-140 | A send changes no state. Any emitted message names the current session, which is listed, and carries the non-empty user id and the text as typed. |
| ChatProperties.BlankTextNotSent | src/components/ChatWindow.js:130 | A text made only of whitespace and line terminators is never emitted. |
| ChatProperties.SendThenEcho | src/components/ChatWindow.js:61-71 | A sent message is not shown right after the send. It is shown, at the end of the view, once the server echoes it back. |
| ChatProperties.SendThenSwitch | src/components/ChatWindow.js:121-140 | A send followed by a switch shows exactly the target's stored history and leaves storage as it was. |
| ChatProperties.EchoAfterSwitch | src/components/ChatWindow.js:61-71 | If a message's echo arrives after the user switched sessions, it is appended to the history of the session switched to. The history of the session it was sent from is unchanged. |
| ChatProperties.InboundAppendsToHistory | src/components/ChatWindow.js:63-69 | A received message extends the current session's stored history by one message at the end and leaves every other entry alone. |
| ChatProperties.InboundIgnoresMessageSession | src/components/ChatWindow.js:65-67 | A message naming another session is filed under the current session. The entry of the session it names is unchanged. |
| ChatProperties.InboundWithoutHandlerIsNoop | src/components/ChatWindow.js:62 | Without a socket or a current session, an inbound message changes nothing. |

## Left out

- `src/components/Register.js`: a form around an external registration call and navigation; it has no bookkeeping of its own.
- Rendering, layout, the drawer (`setDrawerOpen`), scrolling (lines 80-82), logout and navigation (lines 84-87): presentation and routing.
- Clearing the input field after a send (`setMessage('')`, line 138): it is the form's draft text, which the model takes as the send's parameter.
- Opening and closing the socket (lines 53-59) and registering and removing the `message` handler: library lifecycle. Holding a socket is a boolean, and `OpenSocket` models the effect that stores a new socket. The code never resets that state to null, so no event clears it. An emit is the message a `Send` step returns.
- `JSON.parse`, `JSON.stringify` and `localStorage` itself: storage is modelled as already-decoded values, and a missing key as `None`. Malformed JSON, which would throw, is not modelled.
- `Date.now()`, `new Date().toISOString()` and `window.confirm`: environment inputs, passed as parameters.
- React's effect scheduling and batched state updates: each handler, together with the effect it triggers, is one atomic step.
- Numeric or other non-string user ids: `user?.id` is modelled as an optional string, and the empty string counts as falsy.
- Session ids are arbitrary strings in the model, and the index is a map. In the code the index is a parsed JavaScript object, so ids that name properties inherited from `Object.prototype` behave differently: reading `"constructor"` yields a truthy function instead of `[]`, and writing under `"__proto__"` sets the prototype, so `JSON.stringify` drops those messages. The code only generates ids from `Date.now()`, which never produces such names.
- ChatWindow.ViewConsistent: with no current session, the view is not required to be empty. The mount effect can show the entry stored under "undefined" (line 50).
