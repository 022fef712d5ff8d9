/** The transitions of the chat window: each handler and effect of the
    component as one atomic update of `Chat`, and `Step`, which runs one
    user or socket event through its handler and then through the effect
    that React re-runs when the socket or the current session changed. */
module ChatWindow {
  import opened Wrappers
  import opened JsText
  import opened ChatState

  /** The visible list is the stored history of the current session. With
      no current session the list is not constrained (see `Init`). */
  predicate ViewConsistent(c: Chat) {
    c.current.Some? ==> c.visible == Entry(LoadIndex(c.storage), c.current.value.id)
  }

  /** The property name JavaScript uses for `savedSessions[0]?.id` when the
      stored session list is empty: `obj[undefined]` reads key "undefined". */
  const UndefinedKey: string := "undefined"

  /** The name `createNewSession` gives the session it appends to a list
      of `count` sessions. */
  function SessionName(count: nat): (name: string)
    ensures |name| > 5 && name[..5] == "Chat "
    ensures IsDigits(name[5..]) && DecimalValue(name[5..]) == count + 1
    ensures name[5] != '0'
  {
    DecimalRoundTrip(count + 1);
    "Chat " + NatToString(count + 1)
  }

  /** The mount effect: read both storage keys, make the first stored
      session current and show its history. */
  function Init(st: Storage): (c: Chat)
    ensures c.sessions == LoadSessions(st) && c.storage == st && !c.socket
    ensures |c.sessions| > 0 ==> c.current == Some(c.sessions[0]) && ViewConsistent(c)
    ensures |c.sessions| == 0 ==> c.current.None?
    ensures |c.sessions| == 0 ==> c.visible == Entry(LoadIndex(st), UndefinedKey)
  {
    var ss := LoadSessions(st);
    var first := if |ss| > 0 then Some(ss[0]) else None;
    var key := if |ss| > 0 then ss[0].id else UndefinedKey;
    Chat(ss, first, Entry(LoadIndex(st), key), st, false)
  }

  /** The body of the socket/current-session effect as it runs whenever one
      of the two changed: with a socket and a current session it (re)binds
      the inbound handler, which `Receive` models, and reloads the visible
      list from storage; otherwise it does nothing. */
  function Refresh(c: Chat): (r: Chat)
    ensures r.sessions == c.sessions && r.current == c.current
    ensures r.storage == c.storage && r.socket == c.socket
    ensures c.socket && c.current.Some? ==> ViewConsistent(r)
    ensures !(c.socket && c.current.Some?) ==> r == c
  {
    if c.socket && c.current.Some? then
      c.(visible := Entry(LoadIndex(c.storage), c.current.value.id))
    else c
  }

  /** `createNewSession`: append a session named after the list length,
      make it current and rewrite the stored session list. It leaves the
      visible list alone. */
  function CreateSession(c: Chat, id: string, createdAt: string): (r: Chat)
    ensures |r.sessions| == |c.sessions| + 1 && r.sessions[..|c.sessions|] == c.sessions
    ensures r.current == Some(r.sessions[|c.sessions|])
    ensures r.current.value == Session(id, SessionName(|c.sessions|), createdAt)
    ensures LoadSessions(r.storage) == r.sessions
    ensures r.storage.sessionMessages == c.storage.sessionMessages
    ensures r.visible == c.visible && r.socket == c.socket
  {
    var s := Session(id, SessionName(|c.sessions|), createdAt);
    var ss := c.sessions + [s];
    c.(sessions := ss, current := Some(s), storage := c.storage.(chatSessions := Some(ss)))
  }

  /** `switchSession`: make `target` current and show its stored history.
      Nothing is written. */
  function SwitchSession(c: Chat, target: Session): (r: Chat)
    ensures r.current == Some(target) && ViewConsistent(r)
    ensures r.sessions == c.sessions && r.storage == c.storage && r.socket == c.socket
  {
    c.(current := Some(target), visible := Entry(LoadIndex(c.storage), target.id))
  }

  /** True when the current session carries `id`. */
  predicate CurrentIs(c: Chat, id: string) {
    c.current.Some? && c.current.value.id == id
  }

  /** `handleDeleteSession` after the confirmation dialog answered
      `confirmed`: drop every session with `id` and its index entry, write
      both keys, and when the current session was deleted move to the first
      survivor (or to none) and show its history. */
  function DeleteSession(c: Chat, id: string, confirmed: bool): (r: Chat)
    ensures !confirmed ==> r == c
    ensures confirmed ==> r.sessions == Without(c.sessions, id)
    ensures confirmed ==> r.storage.chatSessions.Some? && r.storage.sessionMessages.Some?
    ensures confirmed ==> LoadSessions(r.storage) == r.sessions
    ensures confirmed ==> LoadIndex(r.storage) == LoadIndex(c.storage) - {id}
    ensures r.socket == c.socket
    ensures confirmed && CurrentIs(c, id) ==>
              && r.current == (if r.sessions == [] then None else Some(r.sessions[0]))
              && ViewConsistent(r)
              && (r.current.None? ==> r.visible == [])
    ensures !CurrentIs(c, id) ==> r.current == c.current && r.visible == c.visible
  {
    if !confirmed then c
    else
      var survivors := Without(c.sessions, id);
      var idx := LoadIndex(c.storage) - {id};
      var d := c.(sessions := survivors, storage := Storage(Some(survivors), Some(idx)));
      if CurrentIs(c, id) then
        if |survivors| > 0 then d.(current := Some(survivors[0]), visible := Entry(idx, survivors[0].id))
        else d.(current := None, visible := [])
      else d
  }

  /** `user?.id` is truthy: there is a user and the id is not empty. */
  predicate HasUserId(user: Option<string>) {
    user.Some? && user.value != ""
  }

  /** `sendMessage`: the message emitted on the socket, if any. The text is
      sent untrimmed; the guard only asks that trimming leaves something. */
  function SendMessage(c: Chat, text: string, user: Option<string>, timestamp: string): (out: Option<Message>)
    ensures out.Some? <==>
              && (exists i :: 0 <= i < |text| && !IsTrimmable(text[i]))
              && c.socket && HasUserId(user) && c.current.Some?
    ensures out.Some? ==> out.value == Message(text, user.value, c.current.value.id, timestamp)
  {
    if Trim(text) != [] && c.socket && HasUserId(user) && c.current.Some? then
      Some(Message(text, user.value, c.current.value.id, timestamp))
    else None
  }

  /** The inbound handler: with a socket and a current session it appends
      the message to the visible list and stores that list under the
      current session's id, whatever session the message names. */
  function Receive(c: Chat, m: Message): (r: Chat)
    ensures !(c.socket && c.current.Some?) ==> r == c
    ensures c.socket && c.current.Some? ==>
              && r.visible == c.visible + [m]
              && LoadIndex(r.storage) == LoadIndex(c.storage)[c.current.value.id := r.visible]
              && r.storage.chatSessions == c.storage.chatSessions
              && r.sessions == c.sessions && r.current == c.current && r.socket
              && ViewConsistent(r)
  {
    if c.socket && c.current.Some? then
      var shown := c.visible + [m];
      var idx := LoadIndex(c.storage)[c.current.value.id := shown];
      c.(visible := shown, storage := c.storage.(sessionMessages := Some(idx)))
    else c
  }

  /** The events the window reacts to. `OpenSocket` is the login effect
      storing a (new) socket; the socket state is never reset to null. */
  datatype Event =
    | OpenSocket
    | Create(id: string, createdAt: string)
    | Switch(target: Session)
    | Delete(id: string, confirmed: bool)
    | Send(text: string, user: Option<string>, timestamp: string)
    | Inbound(msg: Message)

  /** The state after an event and the message it emitted, if any. */
  datatype Outcome = Outcome(chat: Chat, sent: Option<Message>)

  /** One event: the handler, then the effect re-run when the handler
      changed the socket or the current session. */
  function Step(c: Chat, e: Event): (o: Outcome)
    ensures o.sent.Some? ==> e.Send? && o.chat == c
    ensures e.Send? ==> o.chat == c
  {
    match e
    case OpenSocket => Outcome(Refresh(c.(socket := true)), None)
    case Create(id, at) => Outcome(Refresh(CreateSession(c, id, at)), None)
    case Switch(t) => Outcome(Refresh(SwitchSession(c, t)), None)
    case Delete(id, ok) =>
      var d := DeleteSession(c, id, ok);
      Outcome(if ok && CurrentIs(c, id) then Refresh(d) else d, None)
    case Send(text, user, ts) => Outcome(c, SendMessage(c, text, user, ts))
    case Inbound(m) => Outcome(Receive(c, m), None)
  }

  /** A sequence of events, one at a time: the final state and every
      message emitted, in order. */
  function Run(c: Chat, es: seq<Event>): (r: (Chat, seq<Message>))
    ensures |r.1| <= |es|
    decreases |es|
  {
    if es == [] then (c, [])
    else
      var o := Step(c, es[0]);
      var rest := Run(o.chat, es[1..]);
      (rest.0, (if o.sent.Some? then [o.sent.value] else []) + rest.1)
  }
}
