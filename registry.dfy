/**
 * The backend's module globals as one value, and what each endpoint does to it.
 * `chat_sessions` is `sessions` plus `order` (a Python dict keeps the insertion
 * order of its keys), `current_session_id` is `current`, `uploaded_files` is
 * `files`, and `vector_store` is only present or absent (`hasIndex`). `llmReady`
 * says whether `llm` was built at start-up (an API key was set).
 */
module Registry {
  import opened Wrappers
  import opened Text
  import opened Conversation
  import opened Recency
  import opened Documents

  datatype State = State(
    sessions: map<string, Session>,
    order: seq<string>,
    current: Option<string>,
    files: map<string, FileMeta>,
    hasIndex: bool,
    llmReady: bool)

  /**
   * What the clock says during one request: `time.time()*1000` as a whole number,
   * `datetime.now()` formatted as "%Y-%m-%d %H:%M", and the "%H:%M" times of the
   * question and of the answer.
   */
  datatype Clock = Clock(millis: nat, stamp: string, askedAt: string, answeredAt: string)

  /**
   * The invariant every endpoint keeps: `order` lists each key of `sessions` once,
   * each session is stored under its own id, ids are not empty, and the current
   * session, when there is one, exists.
   */
  ghost predicate Valid(st: State) {
    && NoDuplicates(st.order)
    && (forall k :: k in st.order <==> k in st.sessions)
    && (forall k :: k in st.sessions ==> st.sessions[k].id == k)
    && "" !in st.sessions
    && (st.current.Some? ==> st.current.value in st.sessions)
  }

  /** The state at start-up, before any request (sessions stored on disk are not part of this model). */
  function Initial(llmReady: bool): (st: State)
    ensures Valid(st)
  {
    State(map[], [], None, map[], false, llmReady)
  }

  /** `chat_sessions[s.id] = s`: a new key goes to the end of the order, an existing one keeps its place. */
  function Put(st: State, s: Session): (r: State)
    ensures r.sessions == st.sessions[s.id := s]
    ensures r.order == if s.id in st.sessions then st.order else st.order + [s.id]
    ensures r.current == st.current && r.files == st.files && r.hasIndex == st.hasIndex && r.llmReady == st.llmReady
  {
    st.(sessions := st.sessions[s.id := s], order := if s.id in st.sessions then st.order else st.order + [s.id])
  }

  lemma PutValid(st: State, s: Session)
    requires Valid(st) && s.id != ""
    ensures Valid(Put(st, s))
  {
    var r := Put(st, s);
    if s.id !in st.sessions {
      forall i, j | 0 <= i < j < |r.order| ensures r.order[i] != r.order[j] {
        if j == |r.order| - 1 {
          assert r.order[i] == st.order[i];
          assert st.order[i] in st.sessions;
        }
      }
    }
  }

  // ---------------------------------------------------------------- ask

  datatype AskError =
    | NoDocuments  // "Upload docs first"
    | NoApiKey     // "API key missing"
    | ModelFailed  // the model call raised

  /** The reply of `ask`: `{answer, sources, session_id}`. */
  datatype Reply = Reply(answer: string, sources: seq<string>, sessionId: string)

  /** Session resolution of `ask`, then `current_session_id = sid`. */
  function ResolveSession(st: State, requested: Option<string>, clock: Clock): (r: (State, string))
    ensures var res := Resolve(st.sessions.Keys, st.current, requested, SessionId(clock.millis));
            && r.1 == res.id
            && r.1 in r.0.sessions && r.0.current == Some(r.1)
            && r.0.sessions.Keys == st.sessions.Keys + {r.1}
            && (res.Reuse? ==> r.0.sessions == st.sessions && r.0.order == st.order)
            && (res.Create? ==> r.0.sessions == st.sessions[r.1 := EmptySession(r.1, clock.stamp)])
            && (res.Create? ==> r.0.order == if r.1 in st.sessions then st.order else st.order + [r.1])
            && r.0.files == st.files && r.0.hasIndex == st.hasIndex && r.0.llmReady == st.llmReady
  {
    var res := Resolve(st.sessions.Keys, st.current, requested, SessionId(clock.millis));
    var st1 := if res.Create? then Put(st, EmptySession(res.id, clock.stamp)) else st;
    (st1.(current := Some(res.id)), res.id)
  }

  lemma ResolveSessionValid(st: State, requested: Option<string>, clock: Clock)
    requires Valid(st)
    ensures Valid(ResolveSession(st, requested, clock).0)
  {
    var res := Resolve(st.sessions.Keys, st.current, requested, SessionId(clock.millis));
    if res.Create? {
      PutValid(st, EmptySession(res.id, clock.stamp));
    }
  }

  /**
   * The session `ask` continues after resolution: the stored one when reused, an empty
   * one under the minted id otherwise; the other sessions are as they were.
   */
  lemma ResolvedBase(st: State, requested: Option<string>, clock: Clock)
    ensures var res := Resolve(st.sessions.Keys, st.current, requested, SessionId(clock.millis));
            var (st1, sid) := ResolveSession(st, requested, clock);
            && sid == res.id && st1.current == Some(sid)
            && st1.sessions[sid] == (if res.Reuse? then st.sessions[sid] else EmptySession(sid, clock.stamp))
            && (forall k :: k in st.sessions && k != sid ==> k in st1.sessions && st1.sessions[k] == st.sessions[k])
  {
  }

  /** The prompt `ask` sends for session `s`: retrieved context, the history window of `s`, the question. */
  function AskPrompt(s: Session, question: string, docs: seq<Doc>): string {
    Prompt(Context(docs), HistoryText(Window(s.messages)), question)
  }

  /**
   * The part of `ask` after resolution, on the resolved session `sid`, given what the
   * model answered to the prompt (`None` when the call raised): on success record the
   * exchange.
   */
  function Exchange(st: State, sid: string, question: string, docs: seq<Doc>,
                    reply: Option<string>, clock: Clock): (r: (State, Result<Reply, AskError>))
    requires sid in st.sessions
    ensures r.0.sessions.Keys == st.sessions.Keys && r.0.order == st.order
  {
    var s := st.sessions[sid];
    var sources := Sources(docs);
    match reply
    case None => (st, Failure(ModelFailed))
    case Some(answer) =>
      (st.(sessions := st.sessions[sid := Record(s, question, answer, sources, clock.askedAt, clock.answeredAt)]),
       Success(Reply(answer, sources, sid)))
  }

  /** After resolution, `ask` touches only the resolved session: the other sessions, the current one, files and index stay. */
  lemma ExchangeFrame(st: State, sid: string, question: string, docs: seq<Doc>,
                      reply: Option<string>, clock: Clock)
    requires sid in st.sessions
    ensures var post := Exchange(st, sid, question, docs, reply, clock).0;
            && post.current == st.current && post.files == st.files && post.hasIndex == st.hasIndex && post.llmReady == st.llmReady
            && (forall k :: k in st.sessions && k != sid ==> post.sessions[k] == st.sessions[k])
  {
    if reply.Some? {
      var s := st.sessions[sid];
      var post := st.(sessions := st.sessions[sid := Record(s, question, reply.value, Sources(docs), clock.askedAt, clock.answeredAt)]);
      assert Exchange(st, sid, question, docs, reply, clock).0 == post;
    }
  }

  /**
   * A failed model call changes nothing; a successful one answers with the model's
   * reply and records the exchange on the resolved session.
   */
  lemma ExchangeEffect(st: State, sid: string, question: string, docs: seq<Doc>,
                       reply: Option<string>, clock: Clock)
    requires sid in st.sessions
    ensures var r := Exchange(st, sid, question, docs, reply, clock);
            && (r.1.Failure? <==> reply.None?)
            && (r.1.Failure? ==> r.1.error == ModelFailed && r.0 == st)
            && (r.1.Success? ==>
                  && r.1.value == Reply(reply.value, Sources(docs), sid)
                  && r.0.sessions[sid] == Record(st.sessions[sid], question, reply.value, Sources(docs), clock.askedAt, clock.answeredAt))
  {
    var s := st.sessions[sid];
    if reply.Some? {
      var recorded := Record(s, question, reply.value, Sources(docs), clock.askedAt, clock.answeredAt);
      assert Exchange(st, sid, question, docs, reply, clock) == (st.(sessions := st.sessions[sid := recorded]), Success(Reply(reply.value, Sources(docs), sid)));
    } else {
      assert Exchange(st, sid, question, docs, reply, clock) == (st, Failure(ModelFailed));
    }
  }

  /** A successful exchange appends the question and then the answer to the session's earlier messages. */
  lemma ExchangeAppends(st: State, sid: string, question: string, docs: seq<Doc>,
                        reply: Option<string>, clock: Clock)
    requires sid in st.sessions
    requires reply.Some?
    ensures var (post, r) := Exchange(st, sid, question, docs, reply, clock);
            var base := st.sessions[sid];
            && r.Success? && r.value == Reply(reply.value, Sources(docs), sid)
            && post.current == st.current
            && post.sessions[sid].messages
               == base.messages + [UserMessage(question, clock.askedAt), AssistantMessage(reply.value, Sources(docs), clock.answeredAt)]
            && post.sessions[sid].title == (if base.messages == [] then Title(question) else base.title)
            && post.sessions[sid].created == base.created
            && (forall k :: k in st.sessions && k != sid ==> k in post.sessions && post.sessions[k] == st.sessions[k])
  {
    ExchangeEffect(st, sid, question, docs, reply, clock);
    ExchangeFrame(st, sid, question, docs, reply, clock);
    var post := Exchange(st, sid, question, docs, reply, clock).0;
    var base := st.sessions[sid];
    var recorded := Record(base, question, reply.value, Sources(docs), clock.askedAt, clock.answeredAt);
    assert post.sessions[sid] == recorded;
    assert recorded.messages
        == base.messages + [UserMessage(question, clock.askedAt), AssistantMessage(reply.value, Sources(docs), clock.answeredAt)];
  }

  /**
   * The `ask` endpoint. `docs` is what the similarity search returned (at most four
   * documents, best first) and `llm` what the model answers to a prompt, `None`
   * when the call raises.
   */
  function AskSpec(st: State, question: string, requested: Option<string>, docs: seq<Doc>,
                   llm: string -> Option<string>, clock: Clock): (State, Result<Reply, AskError>)
  {
    if !st.hasIndex then (st, Failure(NoDocuments))
    else if !st.llmReady then (st, Failure(NoApiKey))
    else
      var (st1, sid) := ResolveSession(st, requested, clock);
      Exchange(st1, sid, question, docs, llm(AskPrompt(st1.sessions[sid], question, docs)), clock)
  }

  /** With an index and a model, `ask` is resolution followed by the exchange on the resolved session. */
  lemma AskIsExchange(st: State, question: string, requested: Option<string>, docs: seq<Doc>,
                      llm: string -> Option<string>, clock: Clock)
    requires st.hasIndex && st.llmReady
    ensures var (st1, sid) := ResolveSession(st, requested, clock);
            AskSpec(st, question, requested, docs, llm, clock)
              == Exchange(st1, sid, question, docs, llm(AskPrompt(st1.sessions[sid], question, docs)), clock)
  {
  }

  /** Without an index, or without a model, `ask` changes nothing: no session is created and the current one is kept. */
  lemma AskPrerequisites(st: State, question: string, requested: Option<string>, docs: seq<Doc>,
                         llm: string -> Option<string>, clock: Clock)
    ensures !st.hasIndex ==> AskSpec(st, question, requested, docs, llm, clock) == (st, Failure(NoDocuments))
    ensures st.hasIndex && !st.llmReady ==> AskSpec(st, question, requested, docs, llm, clock) == (st, Failure(NoApiKey))
  {
  }

  /**
   * Which session `ask` works on. A known explicit id is reused; an unknown one is
   * not honoured and a session under the minted id takes its place; with no id the
   * current session is reused, or a session is minted when there is none. In every
   * case the current session afterwards is the one used, and only a minted id is added.
   */
  lemma AskResolution(st: State, question: string, requested: Option<string>, docs: seq<Doc>,
                      llm: string -> Option<string>, clock: Clock)
    requires Valid(st) && st.hasIndex && st.llmReady
    ensures var (post, r) := AskSpec(st, question, requested, docs, llm, clock);
            var minted := SessionId(clock.millis);
            && post.current.Some?
            && (r.Success? ==> r.value.sessionId == post.current.value)
            && (r.Failure? ==> r.error == ModelFailed)
            && post.sessions.Keys == st.sessions.Keys + {post.current.value}
            && (Truthy(requested) && requested.value in st.sessions ==> post.current == requested)
            && (Truthy(requested) && requested.value !in st.sessions ==> post.current == Some(minted))
            && (!Truthy(requested) && st.current.Some? ==> post.current == st.current)
            && (!Truthy(requested) && st.current.None? ==> post.current == Some(minted))
  {
    if st.current.Some? {
      assert st.current.value != "";
    }
    var (st1, sid) := ResolveSession(st, requested, clock);
    ExchangeEffect(st1, sid, question, docs, llm(AskPrompt(st1.sessions[sid], question, docs)), clock);
  }

  /** A successful exchange after resolution, stated on the session as it was before `ask`. */
  lemma ResolvedExchangeAppends(st: State, question: string, requested: Option<string>, docs: seq<Doc>,
                                reply: Option<string>, clock: Clock)
    requires reply.Some?
    ensures var res := Resolve(st.sessions.Keys, st.current, requested, SessionId(clock.millis));
            var (st1, sid) := ResolveSession(st, requested, clock);
            var base := if res.Reuse? then st.sessions[sid] else EmptySession(sid, clock.stamp);
            var (post, r) := Exchange(st1, sid, question, docs, reply, clock);
            && st1.sessions[sid] == base
            && r.Success? && r.value == Reply(reply.value, Sources(docs), sid)
            && post.current == Some(sid)
            && post.sessions[sid].messages
               == base.messages + [UserMessage(question, clock.askedAt), AssistantMessage(reply.value, Sources(docs), clock.answeredAt)]
            && post.sessions[sid].title == (if base.messages == [] then Title(question) else base.title)
            && post.sessions[sid].created == base.created
            && (forall k :: k in st.sessions && k != sid ==> k in post.sessions && post.sessions[k] == st.sessions[k])
  {
    var (st1, sid) := ResolveSession(st, requested, clock);
    ResolvedBase(st, requested, clock);
    ExchangeAppends(st1, sid, question, docs, reply, clock);
  }

  /**
   * A successful `ask` appends exactly the question and then the answer, with its
   * sources, to the resolved session, names it after the question when these are its
   * first two messages, and leaves every other session as it was. The answer is the
   * model's reply to the prompt built from that session's history before the append.
   */
  lemma AskAppendsExchange(st: State, question: string, requested: Option<string>, docs: seq<Doc>,
                           llm: string -> Option<string>, clock: Clock)
    requires AskSpec(st, question, requested, docs, llm, clock).1.Success?
    ensures var (post, r) := AskSpec(st, question, requested, docs, llm, clock);
            var sid := r.value.sessionId;
            var reused := Resolve(st.sessions.Keys, st.current, requested, SessionId(clock.millis)).Reuse?;
            var base := if reused then st.sessions[sid] else EmptySession(sid, clock.stamp);
            && post.current == Some(sid)
            && llm(AskPrompt(base, question, docs)) == Some(r.value.answer)
            && r.value.sources == Sources(docs)
            && post.sessions[sid].messages
               == base.messages + [UserMessage(question, clock.askedAt), AssistantMessage(r.value.answer, r.value.sources, clock.answeredAt)]
            && post.sessions[sid].title == (if base.messages == [] then Title(question) else base.title)
            && post.sessions[sid].created == base.created
            && (forall k :: k in st.sessions && k != sid ==> k in post.sessions && post.sessions[k] == st.sessions[k])
  {
    assert st.hasIndex && st.llmReady;
    AskIsExchange(st, question, requested, docs, llm, clock);
    var (st1, sid) := ResolveSession(st, requested, clock);
    var reply := llm(AskPrompt(st1.sessions[sid], question, docs));
    ExchangeEffect(st1, sid, question, docs, reply, clock);
    ResolvedExchangeAppends(st, question, requested, docs, reply, clock);
  }

  /**
   * When the model call fails no message is appended anywhere. A session minted
   * for this request stays, empty; every session that existed before is untouched,
   * provided the minted id does not collide with one of them.
   */
  lemma AskFailureAppendsNothing(st: State, question: string, requested: Option<string>, docs: seq<Doc>,
                                 llm: string -> Option<string>, clock: Clock)
    requires Valid(st) && SessionId(clock.millis) !in st.sessions
    requires AskSpec(st, question, requested, docs, llm, clock).1 == Failure(ModelFailed)
    ensures var post := AskSpec(st, question, requested, docs, llm, clock).0;
            && (forall k :: k in st.sessions ==> k in post.sessions && post.sessions[k] == st.sessions[k])
            && (forall k :: k in post.sessions && k !in st.sessions ==> post.sessions[k] == EmptySession(k, clock.stamp))
  {
    assert st.hasIndex && st.llmReady;
    var (st1, sid) := ResolveSession(st, requested, clock);
    ExchangeEffect(st1, sid, question, docs, llm(AskPrompt(st1.sessions[sid], question, docs)), clock);
  }

  /** `ask` keeps the invariant, and never touches the file records, the index or the model. */
  lemma AskPreservesValid(st: State, question: string, requested: Option<string>, docs: seq<Doc>,
                          llm: string -> Option<string>, clock: Clock)
    requires Valid(st)
    ensures var post := AskSpec(st, question, requested, docs, llm, clock).0;
            Valid(post) && post.files == st.files && post.hasIndex == st.hasIndex && post.llmReady == st.llmReady
  {
    if st.hasIndex && st.llmReady {
      var (st1, sid) := ResolveSession(st, requested, clock);
      ResolveSessionValid(st, requested, clock);
      var reply := llm(AskPrompt(st1.sessions[sid], question, docs));
      var r := Exchange(st1, sid, question, docs, reply, clock);
      ExchangeEffect(st1, sid, question, docs, reply, clock);
      ExchangeFrame(st1, sid, question, docs, reply, clock);
      if r.1.Success? {
        PutValid(st1, r.0.sessions[sid]);
        assert r.0 == Put(st1, r.0.sessions[sid]);
      }
    }
  }

  // ---------------------------------------------------------------- sessions

  /** `new_session`: a session under the minted id, empty and titled "New Chat", becomes the current one. */
  function NewSessionSpec(st: State, clock: Clock): (State, string) {
    var sid := SessionId(clock.millis);
    (Put(st, EmptySession(sid, clock.stamp)).(current := Some(sid)), sid)
  }

  lemma NewSessionEffect(st: State, clock: Clock)
    requires Valid(st)
    ensures var (post, sid) := NewSessionSpec(st, clock);
            && Valid(post)
            && sid == SessionId(clock.millis) && post.current == Some(sid)
            && post.sessions[sid] == EmptySession(sid, clock.stamp)
            && post.sessions.Keys == st.sessions.Keys + {sid}
            && post.order == (if sid in st.sessions then st.order else st.order + [sid])
            && (forall k :: k in st.sessions && k != sid ==> post.sessions[k] == st.sessions[k])
            && post.files == st.files && post.hasIndex == st.hasIndex
  {
    PutValid(st, EmptySession(SessionId(clock.millis), clock.stamp));
  }

  /** `xs` without any occurrence of `x`, order kept. */
  function RemoveAll(xs: seq<string>, x: string): (r: seq<string>)
    ensures forall y :: y in r <==> y in xs && y != x
    ensures x !in xs ==> r == xs
    ensures NoDuplicates(xs) ==> NoDuplicates(r)
  {
    if xs == [] then []
    else if xs[0] == x then RemoveAll(xs[1..], x)
    else
      assert NoDuplicates(xs) ==> NoDuplicates(xs[1..]) && xs[0] !in xs[1..];
      [xs[0]] + RemoveAll(xs[1..], x)
  }

  /** `u` occurs in `xs` before `v` does. */
  ghost predicate Precedes(xs: seq<string>, u: string, v: string) {
    exists a, b :: 0 <= a < b < |xs| && xs[a] == u && xs[b] == v
  }

  /** Every two elements of `r` appear in `xs` in the same order: `r` keeps the order of `xs`. */
  ghost predicate KeepsOrder(r: seq<string>, xs: seq<string>) {
    forall i, j :: 0 <= i < j < |r| ==> Precedes(xs, r[i], r[j])
  }

  lemma KeepsOrderTail(r: seq<string>, xs: seq<string>)
    requires xs != [] && KeepsOrder(r, xs[1..])
    ensures KeepsOrder(r, xs)
  {
    var ys := xs[1..];
    forall i, j | 0 <= i < j < |r| ensures Precedes(xs, r[i], r[j]) {
      assert Precedes(ys, r[i], r[j]);
      var a, b :| 0 <= a < b < |ys| && ys[a] == r[i] && ys[b] == r[j];
      assert xs[a + 1] == r[i] && xs[b + 1] == r[j];
    }
  }

  lemma KeepsOrderCons(r: seq<string>, xs: seq<string>)
    requires xs != [] && KeepsOrder(r, xs[1..])
    requires forall y :: y in r ==> y in xs[1..]
    ensures KeepsOrder([xs[0]] + r, xs)
  {
    var ys := xs[1..];
    var r' := [xs[0]] + r;
    KeepsOrderTail(r, xs);
    forall i, j | 0 <= i < j < |r'| ensures Precedes(xs, r'[i], r'[j]) {
      assert r'[j] == r[j - 1] && r[j - 1] in ys;
      if i == 0 {
        var b :| 0 <= b < |ys| && ys[b] == r[j - 1];
        assert xs[0] == r'[0] && xs[b + 1] == r'[j];
      } else {
        assert r'[i] == r[i - 1];
      }
    }
  }

  /** Removing a key keeps the other keys in the order they had. */
  lemma {:induction false} RemoveAllKeepsOrder(xs: seq<string>, x: string)
    ensures KeepsOrder(RemoveAll(xs, x), xs)
  {
    if xs != [] {
      RemoveAllKeepsOrder(xs[1..], x);
      if xs[0] == x {
        KeepsOrderTail(RemoveAll(xs[1..], x), xs);
      } else {
        KeepsOrderCons(RemoveAll(xs[1..], x), xs);
      }
    }
  }

  /** `delete_session`: drop the session if present; forget it as current if it was. */
  function DeleteSessionSpec(st: State, sid: string): State {
    st.(sessions := st.sessions - {sid},
        order := RemoveAll(st.order, sid),
        current := if st.current == Some(sid) then None else st.current)
  }

  /**
   * `delete_session` removes that id and no other, resets the current session exactly
   * when it was the deleted one, touches neither files nor index, and keeps the invariant.
   */
  lemma DeleteSessionEffect(st: State, sid: string)
    requires Valid(st)
    ensures var post := DeleteSessionSpec(st, sid);
            && Valid(post)
            && post.sessions.Keys == st.sessions.Keys - {sid}
            && (forall k :: k in post.sessions ==> post.sessions[k] == st.sessions[k])
            && (post.current != st.current <==> st.current == Some(sid))
            && (post.current != st.current ==> post.current == None)
            && post.files == st.files && post.hasIndex == st.hasIndex
  {
  }

  /** The sessions that remain after `delete_session` are listed in the order they were added. */
  lemma DeleteSessionKeepsOrder(st: State, sid: string)
    ensures KeepsOrder(DeleteSessionSpec(st, sid).order, st.order)
  {
    RemoveAllKeepsOrder(st.order, sid);
  }

  /** Deleting the same session twice is deleting it once. */
  lemma DeleteSessionIdempotent(st: State, sid: string)
    ensures DeleteSessionSpec(DeleteSessionSpec(st, sid), sid) == DeleteSessionSpec(st, sid)
  {
    var once := DeleteSessionSpec(st, sid);
    assert once.sessions - {sid} == once.sessions;
  }

  /**
   * `get_sessions`: every session once, newest `created` first; sessions created
   * in the same minute keep the order in which they entered `chat_sessions`.
   */
  function SessionsByRecency(st: State): seq<Session>
    requires Valid(st)
  {
    SortByCreated(Listing(st.order, st.sessions))
  }

  lemma {:induction false} MultisetOfDistinct(s: seq<Session>, x: Session)
    requires NoDuplicates(s) && x in s
    ensures multiset(s)[x] == 1
  {
    assert s == [s[0]] + s[1..];
    if s[0] == x {
      assert x !in s[1..];
    } else {
      MultisetOfDistinct(s[1..], x);
    }
  }

  /** `chat_sessions.values()` lists each stored session once, and nothing else. */
  lemma ListingDistinct(st: State)
    requires Valid(st)
    ensures var listing := Listing(st.order, st.sessions);
            && NoDuplicates(listing)
            && (forall k :: k in st.sessions ==> st.sessions[k] in listing)
            && (forall x :: x in listing ==> x.id in st.sessions && st.sessions[x.id] == x)
  {
    var listing := Listing(st.order, st.sessions);
    assert |listing| == |st.order|;
    forall i | 0 <= i < |listing| ensures listing[i].id == st.order[i] {
      var k := st.order[i];
      assert k in st.sessions;
      assert listing[i] == st.sessions[k];
    }
    forall i, j | 0 <= i < j < |listing| ensures listing[i] != listing[j] {
      assert st.order[i] != st.order[j];
    }
    forall k | k in st.sessions ensures st.sessions[k] in listing {
      assert k in st.order;
      var i :| 0 <= i < |st.order| && st.order[i] == k;
      assert listing[i] == st.sessions[k];
    }
    forall x | x in listing ensures x.id in st.sessions && st.sessions[x.id] == x {
      var i :| 0 <= i < |listing| && listing[i] == x;
      assert st.order[i] in st.sessions;
    }
  }

  lemma SessionsByRecencyLists(st: State, c: string)
    requires Valid(st)
    ensures var r := SessionsByRecency(st);
            && NewestFirst(r)
            && (forall k :: k in st.sessions ==> multiset(r)[st.sessions[k]] == 1)
            && (forall x :: x in r ==> x.id in st.sessions && st.sessions[x.id] == x)
            && CreatedAt(r, c) == CreatedAt(Listing(st.order, st.sessions), c)
  {
    var listing := Listing(st.order, st.sessions);
    var r := SessionsByRecency(st);
    ListingDistinct(st);
    SortedNewestFirst(listing);
    SortIsStable(listing, c);
    forall k | k in st.sessions ensures multiset(r)[st.sessions[k]] == 1 {
      MultisetOfDistinct(listing, st.sessions[k]);
    }
    forall x | x in r ensures x.id in st.sessions && st.sessions[x.id] == x {
      assert x in multiset(r);
      assert x in multiset(listing);
    }
  }

  // ---------------------------------------------------------------- files

  datatype UploadError =
    | Unsupported  // "PDF/DOCX only"
    | EmptyText    // "Empty file"
    | IndexFailed  // building or merging the vector index raised

  /** The reply of `upload`: the file name and the unchanged current session. */
  datatype UploadReply = UploadReply(filename: string, currentSession: Option<string>)

  /**
   * The `upload` endpoint. `read` gives the text each reader extracts from the bytes
   * received, `chunks` is how many pieces the splitter cut that text into, and
   * `indexed` says whether building the index for them (and merging it into an
   * existing one) returned normally.
   */
  function UploadSpec(st: State, filename: string, size: nat, millis: nat, read: Reader -> string,
                      chunks: nat, indexed: bool): (State, Result<UploadReply, UploadError>)
  {
    if !Accepted(filename) then (st, Failure(Unsupported))
    else
      var fid := FileId(millis, filename);
      if !HasText(read(ReaderAsWritten(UploadPath(fid)))) then (st, Failure(EmptyText))
      else if !indexed then (st, Failure(IndexFailed))
      else
        (st.(hasIndex := true, files := st.files[fid := FileMeta(filename, fid, chunks, size)]),
         Success(UploadReply(filename, st.current)))
  }

  /**
   * `upload` succeeds exactly when the name has an accepted extension, the chosen
   * reader yields at least ten non-blank characters and indexing works; then the
   * index exists and the file is registered under its id. A rejected upload changes
   * nothing, and no upload touches the sessions or the current session.
   */
  lemma UploadEffect(st: State, filename: string, size: nat, millis: nat, read: Reader -> string,
                     chunks: nat, indexed: bool)
    ensures var (post, r) := UploadSpec(st, filename, size, millis, read, chunks, indexed);
            var fid := FileId(millis, filename);
            && (r.Success? <==> Accepted(filename) && HasText(read(ReaderAsWritten(UploadPath(fid)))) && indexed)
            && (Accepted(filename) && !HasText(read(ReaderAsWritten(UploadPath(fid)))) ==> r == Failure(EmptyText))
            && (!Accepted(filename) ==> r == Failure(Unsupported))
            && (r.Failure? ==> post == st)
            && (r.Success? ==> post.hasIndex && post.files == st.files[fid := FileMeta(filename, fid, chunks, size)])
            && (r.Success? ==> r.value == UploadReply(filename, st.current))
            && post.sessions == st.sessions && post.order == st.order && post.current == st.current
  {
  }

  /**
   * An upload named "A.PDF" whose bytes the DOCX reader cannot make sense of is
   * rejected as empty and registers nothing, however much text the PDF reader
   * would have found in it.
   */
  lemma UpperCasePdfUploadRejected(st: State, size: nat, millis: nat, read: Reader -> string,
                                   chunks: nat, indexed: bool)
    requires !HasText(read(DocxReader))
    ensures UploadSpec(st, "A.PDF", size, millis, read, chunks, indexed) == (st, Failure(EmptyText))
  {
    UpperCasePdfReadAsDocx(millis);
  }

  /** `delete_file`: forget the file's metadata. Its vectors stay in the index. */
  function DeleteFileSpec(st: State, fid: string): State {
    st.(files := st.files - {fid})
  }

  /** `clear_all`: drop the index and every file record. Sessions are not touched. */
  function ClearSpec(st: State): State {
    st.(hasIndex := false, files := map[])
  }

  /**
   * A file uploaded and then deleted is gone from the file list, but the index built
   * from it stays, so `ask` still passes its index check.
   */
  lemma DeletedFileStillIndexed(st: State, filename: string, size: nat, millis: nat, read: Reader -> string,
                                chunks: nat, question: string, requested: Option<string>, docs: seq<Doc>,
                                llm: string -> Option<string>, clock: Clock)
    requires UploadSpec(st, filename, size, millis, read, chunks, true).1.Success?
    ensures var post := DeleteFileSpec(UploadSpec(st, filename, size, millis, read, chunks, true).0, FileId(millis, filename));
            && FileId(millis, filename) !in post.files
            && post.hasIndex
            && AskSpec(post, question, requested, docs, llm, clock).1 != Failure(NoDocuments)
  {
  }

  /** After `clear_all`, `ask` fails for want of documents until the next upload; sessions survive the clear. */
  lemma ClearThenAskFails(st: State, question: string, requested: Option<string>, docs: seq<Doc>,
                          llm: string -> Option<string>, clock: Clock)
    requires Valid(st)
    ensures var cleared := ClearSpec(st);
            && Valid(cleared)
            && cleared.files == map[]
            && cleared.sessions == st.sessions && cleared.current == st.current
            && AskSpec(cleared, question, requested, docs, llm, clock) == (cleared, Failure(NoDocuments))
  {
  }

  // ---------------------------------------------------------------- several requests

  /**
   * `new_session` followed by `ask` without a session id: the question goes to the new
   * session, which then holds exactly that exchange and is named after the question.
   */
  lemma NewSessionThenAsk(st: State, c1: Clock, question: string, docs: seq<Doc>,
                          llm: string -> Option<string>, c2: Clock)
    requires Valid(st) && st.hasIndex && st.llmReady
    ensures var (st1, sid) := NewSessionSpec(st, c1);
            var (st2, r) := AskSpec(st1, question, None, docs, llm, c2);
            && st2.current == Some(sid)
            && (r.Success? ==>
                  && r.value.sessionId == sid
                  && st2.sessions[sid].messages
                     == [UserMessage(question, c2.askedAt), AssistantMessage(r.value.answer, Sources(docs), c2.answeredAt)]
                  && st2.sessions[sid].title == Title(question))
  {
    var (st1, sid) := NewSessionSpec(st, c1);
    NewSessionEffect(st, c1);
    assert sid != "" && sid in st1.sessions && st1.current == Some(sid);
    assert st1.hasIndex && st1.llmReady;
    assert Resolve(st1.sessions.Keys, st1.current, None, SessionId(c2.millis)) == Reuse(sid);
    AskResolution(st1, question, None, docs, llm, c2);
    var (st2, r) := AskSpec(st1, question, None, docs, llm, c2);
    if r.Success? {
      AskAppendsExchange(st1, question, None, docs, llm, c2);
      assert st1.sessions[sid].messages == [];
    }
  }

  /** Asking twice with the id the first answer returned continues that session: four messages, first title kept. */
  lemma AskTwiceSameSession(st: State, q1: string, q2: string, requested: Option<string>, docs1: seq<Doc>, docs2: seq<Doc>,
                            llm: string -> Option<string>, c1: Clock, c2: Clock)
    requires Valid(st)
    requires AskSpec(st, q1, requested, docs1, llm, c1).1.Success?
    ensures var (st1, r1) := AskSpec(st, q1, requested, docs1, llm, c1);
            var sid := r1.value.sessionId;
            var (st2, r2) := AskSpec(st1, q2, Some(sid), docs2, llm, c2);
            && (r2.Success? ==>
                  && r2.value.sessionId == sid
                  && |st2.sessions[sid].messages| == |st1.sessions[sid].messages| + 2
                  && st2.sessions[sid].messages[..|st1.sessions[sid].messages|] == st1.sessions[sid].messages
                  && st2.sessions[sid].title == st1.sessions[sid].title)
  {
    var (st1, r1) := AskSpec(st, q1, requested, docs1, llm, c1);
    var sid := r1.value.sessionId;
    AskPreservesValid(st, q1, requested, docs1, llm, c1);
    AskAppendsExchange(st, q1, requested, docs1, llm, c1);
    assert st.hasIndex && st.llmReady;
    assert Valid(st1) && st1.hasIndex && st1.llmReady && sid in st1.sessions && sid != "";
    assert |st1.sessions[sid].messages| >= 2;
    assert Resolve(st1.sessions.Keys, st1.current, Some(sid), SessionId(c2.millis)) == Reuse(sid);
    var (st1b, sid') := ResolveSession(st1, Some(sid), c2);
    assert sid' == sid && st1b.sessions == st1.sessions;
    var reply := llm(AskPrompt(st1b.sessions[sid], q2, docs2));
    assert AskSpec(st1, q2, Some(sid), docs2, llm, c2) == Exchange(st1b, sid, q2, docs2, reply, c2);
    ExchangeEffect(st1b, sid, q2, docs2, reply, c2);
    if reply.Some? {
      ExchangeAppends(st1b, sid, q2, docs2, reply, c2);
    }
  }
}
