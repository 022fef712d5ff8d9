/** The data the chat window keeps: the session list and current session
    (component state), the visible message list (component state) and the
    two browser-storage entries `chatSessions` and `sessionMessages`, which
    are the only home of the per-session message index. */
module ChatState {
  import opened Wrappers

  /** A chat session. `id` comes from the creation instant in the component;
      here it is whatever the caller supplies. */
  datatype Session = Session(id: string, name: string, createdAt: string)

  /** A chat message as sent and as received over the socket. */
  datatype Message = Message(text: string, userId: string, sessionId: string, timestamp: string)

  /** The per-session message index: session id to ordered messages. */
  type Index = map<string, seq<Message>>

  /** Browser storage, already decoded. `None` is a key that was never
      written; malformed JSON is not representable here. */
  datatype Storage = Storage(chatSessions: Option<seq<Session>>, sessionMessages: Option<Index>)

  /** The whole component state. `socket` says whether the socket state
      variable holds a socket; `current` is `currentSession`; `visible` is
      the `messages` state the window renders. */
  datatype Chat = Chat(
    sessions: seq<Session>,
    current: Option<Session>,
    visible: seq<Message>,
    storage: Storage,
    socket: bool)

  /** The session list read from storage: a missing key reads as `[]`. */
  function LoadSessions(st: Storage): seq<Session>
  {
    st.chatSessions.GetOr([])
  }

  /** The message index read from storage: a missing key reads as `{}`. */
  function LoadIndex(st: Storage): Index
  {
    st.sessionMessages.GetOr(map[])
  }

  /** `index[key] || []`: the messages stored under `key`, empty when the
      entry is absent. */
  function Entry(idx: Index, key: string): seq<Message>
  {
    if key in idx then idx[key] else []
  }

  /** The ids of a session list. */
  function Ids(ss: seq<Session>): set<string> {
    set s | s in ss :: s.id
  }

  /** No two positions of the list carry the same id. */
  predicate UniqueIds(ss: seq<Session>) {
    forall i, j :: 0 <= i < j < |ss| ==> ss[i].id != ss[j].id
  }

  /** `sessions.filter(s => s.id !== id)`. */
  function Without(ss: seq<Session>, id: string): (r: seq<Session>)
    ensures |r| <= |ss|
  {
    if ss == [] then []
    else Keep(ss[0], id) + Without(ss[1..], id)
  }

  /** The filter keeps exactly the sessions whose id differs from `id`. */
  lemma {:induction false} WithoutMembers(ss: seq<Session>, id: string)
    ensures forall s :: s in Without(ss, id) <==> s in ss && s.id != id
  {
    if ss != [] {
      WithoutMembers(ss[1..], id);
      assert ss == [ss[0]] + ss[1..];
    }
  }

  /** Filtering out an id no session carries keeps the list as it is. */
  lemma {:induction false} WithoutAbsent(ss: seq<Session>, id: string)
    requires forall s :: s in ss ==> s.id != id
    ensures Without(ss, id) == ss
  {
    if ss != [] {
      assert ss[0] in ss;
      WithoutAbsent(ss[1..], id);
      assert ss == [ss[0]] + ss[1..];
    }
  }

  /** What the filter keeps of one session. */
  function Keep(s: Session, id: string): seq<Session> {
    if s.id == id then [] else [s]
  }

  /** Filtering distributes over concatenation, so the survivors keep the
      relative order they had in the list. */
  lemma {:induction false} WithoutConcat(a: seq<Session>, b: seq<Session>, id: string)
    ensures Without(a + b, id) == Without(a, id) + Without(b, id)
  {
    if a == [] {
      assert a + b == b;
    } else {
      assert (a + b)[0] == a[0];
      assert (a + b)[1..] == a[1..] + b;
      assert Without(a + b, id) == Keep(a[0], id) + Without(a[1..] + b, id);
      WithoutConcat(a[1..], b, id);
      assert Without(a, id) == Keep(a[0], id) + Without(a[1..], id);
    }
  }

  /** The first survivor of the filter is the first list element whose id
      differs from `id`. */
  lemma {:induction false} WithoutFirst(ss: seq<Session>, id: string) returns (k: nat)
    requires Without(ss, id) != []
    ensures k < |ss| && ss[k] == Without(ss, id)[0] && ss[k].id != id
    ensures forall j :: 0 <= j < k ==> ss[j].id == id
  {
    if ss[0].id == id {
      assert Without(ss, id) == Without(ss[1..], id);
      var k' := WithoutFirst(ss[1..], id);
      k := k' + 1;
      forall j | 0 <= j < k ensures ss[j].id == id {
        if j > 0 {
          assert ss[j] == ss[1..][j - 1];
        }
      }
    } else {
      k := 0;
    }
  }

  /** Filtering keeps ids unique. */
  lemma {:induction false} WithoutUnique(ss: seq<Session>, id: string)
    requires UniqueIds(ss)
    ensures UniqueIds(Without(ss, id))
  {
    if ss != [] {
      var tail := Without(ss[1..], id);
      assert UniqueIds(ss[1..]) by {
        forall i, j | 0 <= i < j < |ss[1..]| ensures ss[1..][i].id != ss[1..][j].id {
          assert ss[1..][i] == ss[i + 1] && ss[1..][j] == ss[j + 1];
        }
      }
      WithoutUnique(ss[1..], id);
      WithoutMembers(ss[1..], id);
      if ss[0].id != id {
        forall s | s in tail ensures s.id != ss[0].id {
          var k :| 0 <= k < |ss[1..]| && ss[1..][k] == s;
          assert s == ss[k + 1];
        }
        ConsUnique(ss[0], tail);
      }
    }
  }

  /** Putting a session with a new id in front keeps ids unique. */
  lemma ConsUnique(s: Session, tail: seq<Session>)
    requires UniqueIds(tail)
    requires forall t :: t in tail ==> t.id != s.id
    ensures UniqueIds([s] + tail)
  {
    forall i, j | 0 <= i < j < |[s] + tail| ensures ([s] + tail)[i].id != ([s] + tail)[j].id {
      if i == 0 {
        assert ([s] + tail)[j] == tail[j - 1];
      } else {
        assert ([s] + tail)[i] == tail[i - 1] && ([s] + tail)[j] == tail[j - 1];
      }
    }
  }

  /** Appending a session with a fresh id keeps ids unique. */
  lemma SnocUnique(ss: seq<Session>, s: Session)
    requires UniqueIds(ss) && s.id !in Ids(ss)
    ensures UniqueIds(ss + [s])
  {
    forall i, j | 0 <= i < j < |ss + [s]| ensures (ss + [s])[i].id != (ss + [s])[j].id {
      if j == |ss| {
        assert (ss + [s])[i] == ss[i];
        assert ss[i] in ss;
      }
    }
  }
}
