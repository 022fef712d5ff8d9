/** What the chat window's transitions promise together: the invariant every
    event keeps, the delete, create, switch, send and inbound properties, and
    properties of event sequences, for all inputs. */
module ChatProperties {
  import opened Wrappers
  import opened JsText
  import opened ChatState
  import opened ChatWindow

  /** The invariant of the component: the stored session list mirrors the
      in-memory one (write-through), the current session is one of the
      listed sessions, and while a socket is held the view shows the
      current session's stored history. */
  predicate Coherent(c: Chat) {
    && LoadSessions(c.storage) == c.sessions
    && (c.current.Some? ==> c.current.value in c.sessions)
    && (c.socket ==> ViewConsistent(c))
  }

  /** The user interface switches only to a session of the list. */
  predicate Admissible(c: Chat, e: Event) {
    e.Switch? ==> e.target in c.sessions
  }

  predicate AdmissibleRun(c: Chat, es: seq<Event>)
    decreases |es|
  {
    es == [] || (Admissible(c, es[0]) && AdmissibleRun(Step(c, es[0]).chat, es[1..]))
  }

  // ---------------------------------------------------------------- Init

  /** Loading the component from any storage gives a coherent state. */
  lemma InitCoherent(st: Storage)
    ensures Coherent(Init(st))
  {
  }

  /** With no stored sessions there is no current session, and the view is
      empty unless the index happens to hold the key "undefined". */
  lemma InitWithoutSessions(st: Storage)
    requires LoadSessions(st) == []
    ensures Init(st).current.None?
    ensures UndefinedKey !in LoadIndex(st) ==> Init(st).visible == []
    ensures UndefinedKey in LoadIndex(st) ==> Init(st).visible == LoadIndex(st)[UndefinedKey]
  {
  }

  /** A storage key that was never written reads as empty: no sessions, no
      current session, and an empty view. */
  lemma InitMissingKeys(st: Storage)
    ensures st.chatSessions.None? ==> Init(st).sessions == [] && Init(st).current.None?
    ensures st.sessionMessages.None? ==> Init(st).visible == []
  {
  }

  /** Storing a coherent state and loading it again gives back the same
      session list and index, with the first session current. The index
      half holds by construction: the index lives only in storage, which
      loading keeps as it is. */
  lemma PersistReload(c: Chat)
    requires Coherent(c)
    ensures Init(c.storage).sessions == c.sessions
    ensures LoadIndex(Init(c.storage).storage) == LoadIndex(c.storage)
    ensures c.sessions != [] ==> Init(c.storage).current == Some(c.sessions[0])
  {
  }

  // ---------------------------------------------------------------- invariant

  /** Every event keeps the invariant. */
  lemma StepPreservesCoherent(c: Chat, e: Event)
    requires Coherent(c) && Admissible(c, e)
    ensures Coherent(Step(c, e).chat)
  {
    match e
    case OpenSocket =>
    case Create(id, at) =>
    case Switch(t) =>
    case Delete(id, ok) =>
      if ok {
        var d := DeleteSession(c, id, ok);
        WithoutMembers(c.sessions, id);
        if !CurrentIs(c, id) && c.current.Some? {
          assert c.current.value in d.sessions;
          assert c.current.value.id != id;
        }
      }
    case Send(text, user, ts) =>
    case Inbound(m) =>
  }

  /** Any admissible sequence of events keeps the invariant. */
  lemma {:induction false} RunPreservesCoherent(c: Chat, es: seq<Event>)
    requires Coherent(c) && AdmissibleRun(c, es)
    ensures Coherent(Run(c, es).0)
    decreases |es|
  {
    if es != [] {
      StepPreservesCoherent(c, es[0]);
      RunPreservesCoherent(Step(c, es[0]).chat, es[1..]);
    }
  }

  // ---------------------------------------------------------------- Create

  /** Creating a session while a socket is held shows the new session's
      stored history, which is empty for an id the index has never seen. */
  lemma CreateWithSocketShowsNewSession(c: Chat, id: string, at: string)
    requires c.socket
    ensures var r := Step(c, Create(id, at)).chat;
            && r.current == Some(Session(id, SessionName(|c.sessions|), at))
            && ViewConsistent(r)
            && (id !in LoadIndex(c.storage) ==> r.visible == [])
  {
  }

  /** Without a socket the effect does not run, so the new session is
      current while the view still shows the previous list. */
  lemma CreateWithoutSocketKeepsView(c: Chat, id: string, at: string)
    requires !c.socket
    ensures Step(c, Create(id, at)).chat.visible == c.visible
    ensures Step(c, Create(id, at)).chat.current.value.id == id
  {
  }

  /** One `Create` event per (id, createdAt) request, in order. */
  function CreateEvents(reqs: seq<(string, string)>): seq<Event>
  {
    seq(|reqs|, i requires 0 <= i < |reqs| => Create(reqs[i].0, reqs[i].1))
  }

  /** Every requested id lies outside `used` and differs from the ids
      requested before it. */
  predicate FreshIds(reqs: seq<(string, string)>, used: set<string>)
    decreases |reqs|
  {
    reqs == [] || (reqs[0].0 !in used && FreshIds(reqs[1..], used + {reqs[0].0}))
  }

  /** The session list after a sequence of creations with fresh ids: one
      new session per request, appended in request order, named after the
      list length, with ids still unique and nothing emitted. */
  lemma CreateRun(c: Chat, reqs: seq<(string, string)>)
    requires UniqueIds(c.sessions) && FreshIds(reqs, Ids(c.sessions))
    ensures var f := Run(c, CreateEvents(reqs)).0;
            && |f.sessions| == |c.sessions| + |reqs|
            && f.sessions[..|c.sessions|] == c.sessions
            && UniqueIds(f.sessions)
            && (forall i :: 0 <= i < |reqs| ==>
                  f.sessions[|c.sessions| + i] == Session(reqs[i].0, SessionName(|c.sessions| + i), reqs[i].1))
    ensures Run(c, CreateEvents(reqs)).1 == []
  {
    RunCreateEvents(c, reqs);
    AppendCreatedFacts(c.sessions, reqs);
  }

  /** The list `createNewSession` builds from `ss` when called once per
      request. */
  function AppendCreated(ss: seq<Session>, reqs: seq<(string, string)>): seq<Session>
    decreases |reqs|
  {
    if reqs == [] then ss
    else AppendCreated(ss + [Session(reqs[0].0, SessionName(|ss|), reqs[0].1)], reqs[1..])
  }

  /** Running the creation events builds exactly that list and emits
      nothing. */
  lemma {:induction false} RunCreateEvents(c: Chat, reqs: seq<(string, string)>)
    ensures Run(c, CreateEvents(reqs)).0.sessions == AppendCreated(c.sessions, reqs)
    ensures Run(c, CreateEvents(reqs)).1 == []
    decreases |reqs|
  {
    var es := CreateEvents(reqs);
    if reqs == [] {
      RunNothing(c, es);
    } else {
      var c1 := CreateStep(c, es[0]);
      assert es[1..] == CreateEvents(reqs[1..]);
      RunCons(c, es);
      RunCreateEvents(c1, reqs[1..]);
    }
  }

  /** What the appended list looks like: the old list as a prefix, then one
      session per request named after the list length, ids still unique. */
  lemma AppendCreatedFacts(ss: seq<Session>, reqs: seq<(string, string)>)
    requires UniqueIds(ss) && FreshIds(reqs, Ids(ss))
    ensures var fs := AppendCreated(ss, reqs);
            && |fs| == |ss| + |reqs|
            && fs[..|ss|] == ss
            && UniqueIds(fs)
            && (forall i :: 0 <= i < |reqs| ==>
                  fs[|ss| + i] == Session(reqs[i].0, SessionName(|ss| + i), reqs[i].1))
  {
    AppendCreatedShape(ss, reqs);
    AppendCreatedUnique(ss, reqs);
  }

  lemma {:induction false} AppendCreatedShape(ss: seq<Session>, reqs: seq<(string, string)>)
    ensures var fs := AppendCreated(ss, reqs);
            && |fs| == |ss| + |reqs|
            && fs[..|ss|] == ss
            && (forall i :: 0 <= i < |reqs| ==>
                  fs[|ss| + i] == Session(reqs[i].0, SessionName(|ss| + i), reqs[i].1))
    decreases |reqs|
  {
    if reqs != [] {
      var s0 := Session(reqs[0].0, SessionName(|ss|), reqs[0].1);
      assert AppendCreated(ss, reqs) == AppendCreated(ss + [s0], reqs[1..]);
      AppendCreatedShape(ss + [s0], reqs[1..]);
      CreateRunPrefix(ss, s0, AppendCreated(ss, reqs), reqs);
    }
  }

  lemma {:induction false} AppendCreatedUnique(ss: seq<Session>, reqs: seq<(string, string)>)
    requires UniqueIds(ss) && FreshIds(reqs, Ids(ss))
    ensures UniqueIds(AppendCreated(ss, reqs))
    decreases |reqs|
  {
    if reqs != [] {
      var s0 := Session(reqs[0].0, SessionName(|ss|), reqs[0].1);
      assert AppendCreated(ss, reqs) == AppendCreated(ss + [s0], reqs[1..]);
      SnocUnique(ss, s0);
      assert Ids(ss + [s0]) == Ids(ss) + {s0.id};
      AppendCreatedUnique(ss + [s0], reqs[1..]);
    }
  }

  /** Running no events changes nothing and emits nothing. */
  lemma RunNothing(c: Chat, es: seq<Event>)
    requires es == []
    ensures Run(c, es) == (c, [])
  {
  }

  /** A run is its first step followed by the run of the rest. */
  lemma RunCons(c: Chat, es: seq<Event>)
    requires es != []
    ensures var o := Step(c, es[0]);
            && Run(c, es).0 == Run(o.chat, es[1..]).0
            && Run(c, es).1 == (if o.sent.Some? then [o.sent.value] else []) + Run(o.chat, es[1..]).1
  {
  }

  /** One creation appends one session and emits nothing. */
  lemma CreateStep(c: Chat, e: Event) returns (c1: Chat)
    requires e.Create?
    ensures c1 == Step(c, e).chat && Step(c, e).sent.None?
    ensures c1.sessions == c.sessions + [Session(e.id, SessionName(|c.sessions|), e.createdAt)]
  {
    c1 := Step(c, e).chat;
  }

  /** Gluing the first creation to what the remaining creations appended. */
  lemma CreateRunPrefix(ss: seq<Session>, s0: Session, fs: seq<Session>, reqs: seq<(string, string)>)
    requires |reqs| > 0
    requires s0 == Session(reqs[0].0, SessionName(|ss|), reqs[0].1)
    requires |fs| == |ss| + 1 + |reqs[1..]| && fs[..|ss| + 1] == ss + [s0]
    requires forall i :: 0 <= i < |reqs[1..]| ==>
               fs[|ss| + 1 + i] == Session(reqs[1..][i].0, SessionName(|ss| + 1 + i), reqs[1..][i].1)
    ensures fs[..|ss|] == ss
    ensures forall i :: 0 <= i < |reqs| ==>
              fs[|ss| + i] == Session(reqs[i].0, SessionName(|ss| + i), reqs[i].1)
  {
    assert fs[..|ss|] == fs[..|ss| + 1][..|ss|];
    forall i | 0 <= i < |reqs|
      ensures fs[|ss| + i] == Session(reqs[i].0, SessionName(|ss| + i), reqs[i].1)
    {
      if i == 0 {
        assert fs[|ss|] == fs[..|ss| + 1][|ss|];
      } else {
        assert reqs[1..][i - 1] == reqs[i];
      }
    }
  }

  /** Starting from no sessions, the created sessions are named "Chat 1",
      "Chat 2", ... and no two share a name. */
  lemma CreateNamesFromEmpty(c: Chat, reqs: seq<(string, string)>)
    requires c.sessions == []
    ensures var f := Run(c, CreateEvents(reqs)).0;
            && |f.sessions| == |reqs|
            && (forall i :: 0 <= i < |reqs| ==> f.sessions[i].name == "Chat " + NatToString(i + 1))
            && (forall i, j :: 0 <= i < j < |reqs| ==> f.sessions[i].name != f.sessions[j].name)
  {
    RunCreateEvents(c, reqs);
    var fs := AppendCreated([], reqs);
    assert Run(c, CreateEvents(reqs)).0.sessions == fs;
    NamesFromEmpty(reqs);
    CountedNamesDistinct(fs);
  }

  /** Appending to the empty list names each session after its position. */
  lemma NamesFromEmpty(reqs: seq<(string, string)>)
    ensures var fs := AppendCreated([], reqs);
            && |fs| == |reqs|
            && forall i :: 0 <= i < |fs| ==> fs[i].name == SessionName(i)
  {
    AppendCreatedShape([], reqs);
    var fs := AppendCreated([], reqs);
    var none: seq<Session> := [];
    forall i | 0 <= i < |fs| ensures fs[i].name == SessionName(i) {
      // AppendCreatedShape speaks of position |none| + i
      assert fs[|none| + i] == Session(reqs[i].0, SessionName(|none| + i), reqs[i].1);
    }
  }

  /** Sessions named after their position, from "Chat 1" on, have pairwise
      distinct names. */
  lemma CountedNamesDistinct(fs: seq<Session>)
    requires forall i :: 0 <= i < |fs| ==> fs[i].name == SessionName(i)
    ensures forall i :: 0 <= i < |fs| ==> fs[i].name == "Chat " + NatToString(i + 1)
    ensures forall i, j :: 0 <= i < j < |fs| ==> fs[i].name != fs[j].name
  {
    forall i | 0 <= i < |fs| ensures fs[i].name == "Chat " + NatToString(i + 1) {
      assert fs[i].name == SessionName(i);
    }
    forall i, j | 0 <= i < j < |fs| ensures fs[i].name != fs[j].name {
      NatToStringInjective(i + 1, j + 1);
      assert fs[i].name[5..] == NatToString(i + 1);
      assert fs[j].name[5..] == NatToString(j + 1);
    }
  }

  /** Names follow the list length, so a deletion followed by a creation can
      repeat a name still in use: from no sessions, creating two, deleting
      the first and creating a third leaves two sessions named "Chat 2". */
  lemma NameRepeatsAfterDelete(c: Chat, first: string, second: string, third: string,
                               t1: string, t2: string, t3: string)
    requires c.sessions == [] && first != second
    ensures var es := [Create(first, t1), Create(second, t2), Delete(first, true), Create(third, t3)];
            Run(c, es).0.sessions == [Session(second, "Chat 2", t2), Session(third, "Chat 2", t3)]
  {
    var e1, e2, e3, e4 := Create(first, t1), Create(second, t2), Delete(first, true), Create(third, t3);
    var s1 := Session(first, SessionName(0), t1);
    var s2 := Session(second, SessionName(1), t2);
    var c1 := CreateStep(c, e1);
    var c2 := CreateStep(c1, e2);
    assert c2.sessions == [s1, s2];
    var c3 := DeleteStep(c2, first);
    assert [s1, s2][1..] == [s2];
    assert c3.sessions == [s2];
    var c4 := CreateStep(c3, e4);
    SessionNameTwo();
    assert c4.sessions == [Session(second, "Chat 2", t2), Session(third, "Chat 2", t3)];
    RunFour(c, e1, e2, e3, e4);
    assert Run(c, [e1, e2, e3, e4]).0 == c4;
  }

  /** The second session of a list is named "Chat 2". */
  lemma SessionNameTwo()
    ensures SessionName(1) == "Chat 2"
  {
    assert NatToString(2) == "2";
  }

  /** A confirmed deletion filters the list, whether or not the effect runs
      after it. */
  lemma DeleteStep(c: Chat, id: string) returns (c1: Chat)
    ensures c1 == Step(c, Delete(id, true)).chat
    ensures c1.sessions == Without(c.sessions, id)
  {
    c1 := Step(c, Delete(id, true)).chat;
  }

  /** A run of four events ends where the four steps, one after the other,
      end. */
  lemma RunFour(c: Chat, e1: Event, e2: Event, e3: Event, e4: Event)
    ensures Run(c, [e1, e2, e3, e4]).0 == Step(Step(Step(Step(c, e1).chat, e2).chat, e3).chat, e4).chat
  {
    var c1 := Step(c, e1).chat;
    var c2 := Step(c1, e2).chat;
    var c3 := Step(c2, e3).chat;
    var c4 := Step(c3, e4).chat;
    RunNothing(c4, []);
    RunThen(c3, e4, []);
    assert [e4] + [] == [e4];
    RunThen(c2, e3, [e4]);
    RunThen(c1, e2, [e3, e4]);
    RunThen(c, e1, [e2, e3, e4]);
    assert [e1, e2, e3, e4] == [e1] + [e2, e3, e4];
    assert [e2, e3, e4] == [e2] + [e3, e4];
    assert [e3, e4] == [e3] + [e4];
  }

  // ---------------------------------------------------------------- Switch

  /** Switching re-derives the view itself, so the effect that re-runs
      after it changes nothing. */
  lemma SwitchRefreshIdempotent(c: Chat, t: Session)
    ensures Step(c, Switch(t)).chat == SwitchSession(c, t)
  {
  }

  /** Messages received while a session is current are shown again, in
      arrival order, after switching away and back. */
  lemma SwitchAwayAndBack(c: Chat, a: Session, b: Session, m1: Message, m2: Message)
    requires Coherent(c) && c.socket && a in c.sessions && b in c.sessions && a.id != b.id
    ensures var f := Run(c, [Switch(b), Inbound(m1), Inbound(m2), Switch(a), Switch(b)]).0;
            && f.current == Some(b)
            && f.visible == Entry(LoadIndex(c.storage), b.id) + [m1, m2]
            && Entry(LoadIndex(f.storage), a.id) == Entry(LoadIndex(c.storage), a.id)
  {
    var es := [Switch(b), Inbound(m1), Inbound(m2), Switch(a), Switch(b)];
    var c1 := Step(c, es[0]).chat;
    var c2 := Step(c1, es[1]).chat;
    var c3 := Step(c2, es[2]).chat;
    var c4 := Step(c3, es[3]).chat;
    var c5 := Step(c4, es[4]).chat;
    assert Run(c, es).0 == Run(c1, es[1..]).0;
    assert Run(c1, es[1..]).0 == Run(c2, es[2..]).0;
    assert Run(c2, es[2..]).0 == Run(c3, es[3..]).0;
    assert Run(c3, es[3..]).0 == Run(c4, es[4..]).0;
    assert Run(c4, es[4..]).0 == Run(c5, es[5..]).0;
    assert c2.visible == Entry(LoadIndex(c.storage), b.id) + [m1];
    assert c3.visible == Entry(LoadIndex(c.storage), b.id) + [m1, m2];
    assert LoadIndex(c5.storage) == LoadIndex(c3.storage);
  }

  // ---------------------------------------------------------------- Delete

  /** A refused confirmation changes nothing. */
  lemma DeleteUnconfirmedIsNoop(c: Chat, id: string)
    ensures Step(c, Delete(id, false)) == Outcome(c, None)
  {
  }

  /** A confirmed delete removes every session with the id and keeps the
      others in their relative order. */
  lemma DeleteRemovesFromList(c: Chat, id: string, pre: seq<Session>, post: seq<Session>)
    requires c.sessions == pre + post
    ensures var r := Step(c, Delete(id, true)).chat;
            && id !in Ids(r.sessions)
            && (forall s :: s in r.sessions <==> s in c.sessions && s.id != id)
            && r.sessions == Without(pre, id) + Without(post, id)
            && LoadSessions(r.storage) == r.sessions
  {
    var d := DeleteSession(c, id, true);
    WithoutMembers(c.sessions, id);
    assert Step(c, Delete(id, true)).chat.sessions == d.sessions;
    assert Step(c, Delete(id, true)).chat.storage == d.storage;
    WithoutConcat(pre, post, id);
  }

  /** A confirmed delete removes the id's index entry and keeps every other
      entry as it was. */
  lemma DeleteRemovesFromIndex(c: Chat, id: string)
    ensures var r := Step(c, Delete(id, true)).chat;
            && id !in LoadIndex(r.storage)
            && (forall k :: k != id ==> Entry(LoadIndex(r.storage), k) == Entry(LoadIndex(c.storage), k))
  {
  }

  /** A reload after a confirmed delete does not bring the id back. */
  lemma DeleteSurvivesReload(c: Chat, id: string)
    ensures var r := Init(Step(c, Delete(id, true)).chat.storage);
            && id !in Ids(r.sessions)
            && id !in LoadIndex(r.storage)
  {
    WithoutMembers(c.sessions, id);
  }

  /** Deleting the current session makes the first session of the old list
      with another id current, or none when no session is left; deleting any
      other id leaves the current session and the view alone. */
  lemma DeleteMovesCurrent(c: Chat, id: string)
    ensures var r := Step(c, Delete(id, true)).chat;
            && (CurrentIs(c, id) && r.sessions != [] ==>
                  exists k :: 0 <= k < |c.sessions| && r.current == Some(c.sessions[k]) && c.sessions[k].id != id
                              && forall j :: 0 <= j < k ==> c.sessions[j].id == id)
            && (CurrentIs(c, id) && r.sessions == [] ==> r.current.None? && r.visible == [])
            && (CurrentIs(c, id) ==> ViewConsistent(r))
            && (!CurrentIs(c, id) ==> r.current == c.current && r.visible == c.visible)
  {
    var r := Step(c, Delete(id, true)).chat;
    if CurrentIs(c, id) && r.sessions != [] {
      var k := WithoutFirst(c.sessions, id);
    }
  }

  /** Deleting keeps ids unique. */
  lemma DeleteKeepsIdsUnique(c: Chat, id: string, ok: bool)
    requires UniqueIds(c.sessions)
    ensures UniqueIds(Step(c, Delete(id, ok)).chat.sessions)
  {
    if ok {
      WithoutUnique(c.sessions, id);
    }
  }

  /** Deleting the only, current, session leaves no current session, an
      empty view, and sending does nothing afterwards. */
  lemma DeleteOnlySession(c: Chat, s: Session, text: string, user: Option<string>, ts: string)
    requires c.sessions == [s] && c.current == Some(s)
    ensures var r := Step(c, Delete(s.id, true)).chat;
            && r.sessions == [] && r.current.None? && r.visible == []
            && Step(r, Send(text, user, ts)).sent.None?
  {
    assert [s][1..] == [];
  }

  // ---------------------------------------------------------------- Send

  /** A send emits a message for the current session, which is a listed
      session, from the signed-in user, and changes no state. */
  lemma SendStampsCurrentSession(c: Chat, text: string, user: Option<string>, ts: string)
    requires Coherent(c)
    ensures var o := Step(c, Send(text, user, ts));
            && o.chat == c
            && (o.sent.Some? ==>
                  && o.sent.value.sessionId in Ids(c.sessions)
                  && CurrentIs(c, o.sent.value.sessionId)
                  && o.sent.value.userId == user.value && user.value != ""
                  && o.sent.value.text == text)
  {
  }

  /** A text made only of whitespace and line terminators is never sent. */
  lemma BlankTextNotSent(c: Chat, text: string, user: Option<string>, ts: string)
    requires forall i :: 0 <= i < |text| ==> IsTrimmable(text[i])
    ensures Step(c, Send(text, user, ts)).sent.None?
  {
  }

  /** A sent message appears in the view only once the server echoes it
      back: right after the send the view is unchanged, after the echo it
      is the old view plus that message. */
  lemma SendThenEcho(c: Chat, text: string, user: Option<string>, ts: string)
    requires Coherent(c) && c.socket && c.current.Some? && HasUserId(user)
    requires exists i :: 0 <= i < |text| && !IsTrimmable(text[i])
    ensures var o := Step(c, Send(text, user, ts));
            && o.sent == Some(Message(text, user.value, c.current.value.id, ts))
            && o.chat.visible == c.visible
            && Step(o.chat, Inbound(o.sent.value)).chat.visible == c.visible + [o.sent.value]
  {
  }

  /** Sending in one session and then switching to another shows the other
      session's stored history: the send left nothing behind. */
  lemma SendThenSwitch(c: Chat, b: Session, text: string, user: Option<string>, ts: string)
    ensures var r := Run(c, [Send(text, user, ts), Switch(b)]).0;
            && r.current == Some(b)
            && r.visible == Entry(LoadIndex(c.storage), b.id)
            && r.storage == c.storage
  {
    var es := [Send(text, user, ts), Switch(b)];
    RunCons(c, es);
    RunCons(c, es[1..]);
    RunNothing(SwitchSession(c, b), es[2..]);
  }

  /** An echo that arrives after the user switched sessions is filed under
      the session switched to, not under the session it was sent from. */
  lemma EchoAfterSwitch(c: Chat, b: Session, text: string, user: Option<string>, ts: string)
    requires c.socket && c.current.Some? && HasUserId(user) && c.current.value.id != b.id
    requires exists i :: 0 <= i < |text| && !IsTrimmable(text[i])
    ensures var m := Message(text, user.value, c.current.value.id, ts);
            var r := Run(c, [Send(text, user, ts), Switch(b), Inbound(m)]);
            var idx := LoadIndex(r.0.storage);
            && r.1 == [m]
            && Entry(idx, b.id) == Entry(LoadIndex(c.storage), b.id) + [m]
            && Entry(idx, c.current.value.id) == Entry(LoadIndex(c.storage), c.current.value.id)
  {
    var m := Message(text, user.value, c.current.value.id, ts);
    var c2 := SwitchSession(c, b);
    var tail := [Switch(b), Inbound(m)];
    RunSwitchThen(c, b, [Inbound(m)]);
    RunInbound(c2, m);
    RunSendThen(c, text, user, ts, tail);
    assert [Send(text, user, ts), Switch(b), Inbound(m)] == [Send(text, user, ts)] + tail;
    assert [Switch(b), Inbound(m)] == [Switch(b)] + [Inbound(m)];
    assert c2.current == Some(b) && c2.visible == Entry(LoadIndex(c.storage), b.id);
    assert LoadIndex(Receive(c2, m).storage) == LoadIndex(c.storage)[b.id := c2.visible + [m]];
  }

  /** A run that starts with a send: the send changes no state, and its
      message, if any, is emitted first. */
  lemma RunSendThen(c: Chat, text: string, user: Option<string>, ts: string, rest: seq<Event>)
    ensures var out := SendMessage(c, text, user, ts);
            Run(c, [Send(text, user, ts)] + rest) ==
              (Run(c, rest).0, (if out.Some? then [out.value] else []) + Run(c, rest).1)
  {
    SendStep(c, text, user, ts);
    RunThen(c, Send(text, user, ts), rest);
  }

  /** A send is the send handler alone; no effect follows it. */
  lemma SendStep(c: Chat, text: string, user: Option<string>, ts: string)
    ensures Step(c, Send(text, user, ts)) == Outcome(c, SendMessage(c, text, user, ts))
  {
    var o := Step(c, Send(text, user, ts));
    assert o.chat == c;
    assert o.sent == SendMessage(c, text, user, ts);
  }

  /** A run whose events are one event followed by others. */
  lemma RunThen(c: Chat, e: Event, rest: seq<Event>)
    ensures var o := Step(c, e);
            Run(c, [e] + rest) == (Run(o.chat, rest).0, (if o.sent.Some? then [o.sent.value] else []) + Run(o.chat, rest).1)
  {
    var es := [e] + rest;
    assert es[0] == e && es[1..] == rest;
    RunCons(c, es);
  }

  /** A run that starts with a switch continues from the switched state. */
  lemma RunSwitchThen(c: Chat, b: Session, rest: seq<Event>)
    ensures Run(c, [Switch(b)] + rest) == Run(SwitchSession(c, b), rest)
  {
    var es := [Switch(b)] + rest;
    var c2 := SwitchSession(c, b);
    assert es[0] == Switch(b) && es[1..] == rest;
    SwitchRefreshIdempotent(c, b);
    assert Step(c, es[0]) == Outcome(c2, None);
    RunCons(c, es);
    assert [] + Run(c2, rest).1 == Run(c2, rest).1;
  }

  /** A run of one inbound message is the inbound handler. */
  lemma RunInbound(c: Chat, m: Message)
    ensures Run(c, [Inbound(m)]) == (Receive(c, m), [])
  {
    RunCons(c, [Inbound(m)]);
    RunNothing(Receive(c, m), [Inbound(m)][1..]);
  }

  // ---------------------------------------------------------------- Inbound

  /** A received message extends the current session's stored history by
      one message at the end and leaves every other entry alone. */
  lemma InboundAppendsToHistory(c: Chat, m: Message)
    requires Coherent(c) && c.socket && c.current.Some?
    ensures var r := Step(c, Inbound(m)).chat;
            var cur := c.current.value.id;
            && Entry(LoadIndex(r.storage), cur) == Entry(LoadIndex(c.storage), cur) + [m]
            && (forall k :: k != cur ==> Entry(LoadIndex(r.storage), k) == Entry(LoadIndex(c.storage), k))
            && r.visible == Entry(LoadIndex(r.storage), cur)
  {
  }

  /** The inbound handler files a message under the current session, not
      under the session the message names. */
  lemma InboundIgnoresMessageSession(c: Chat, m: Message)
    requires c.socket && c.current.Some? && m.sessionId != c.current.value.id
    ensures var r := Step(c, Inbound(m)).chat;
            && Entry(LoadIndex(r.storage), m.sessionId) == Entry(LoadIndex(c.storage), m.sessionId)
            && r.visible[|r.visible| - 1] == m
            && LoadIndex(r.storage)[c.current.value.id] == r.visible
  {
  }

  /** Without a socket or without a current session an inbound message
      changes nothing. */
  lemma InboundWithoutHandlerIsNoop(c: Chat, m: Message)
    requires !c.socket || c.current.None?
    ensures Step(c, Inbound(m)).chat == c
  {
  }
}
