/**
 * The backend process: the module globals of the FastAPI app as the fields of one
 * object, and the endpoints that update them in place. Each endpoint is proved to
 * do to the fields what the corresponding function of `Registry` says.
 */
module Server {
  import opened Wrappers
  import opened Conversation
  import opened Documents
  import opened Registry

  class Backend {
    var sessions: map<string, Session>   // chat_sessions
    var order: seq<string>               // the insertion order of chat_sessions' keys
    var current: Option<string>          // current_session_id
    var files: map<string, FileMeta>     // uploaded_files
    var hasIndex: bool                   // vector_store is not None
    const llmReady: bool                 // llm is not None

    /** The fields as one value. */
    function Model(): State
      reads this
    {
      State(sessions, order, current, files, hasIndex, llmReady)
    }

    ghost predicate Valid()
      reads this
    {
      Registry.Valid(Model())
    }

    /** Start-up with nothing uploaded and no session; `llmReady` says whether an API key was set. */
    constructor (llmReady: bool)
      ensures Model() == Initial(llmReady) && Valid()
    {
      sessions, order, current := map[], [], None;
      files, hasIndex := map[], false;
      this.llmReady := llmReady;
    }

    /** `chat_sessions[s.id] = s`. */
    method Store(s: Session)
      modifies this
      ensures Model() == Put(old(Model()), s)
    {
      if s.id !in sessions {
        order := order + [s.id];
      }
      sessions := sessions[s.id := s];
    }

    /** Session resolution of `ask`, ending with `current_session_id = sid`. */
    method ResolveInPlace(requested: Option<string>, clock: Clock) returns (sid: string)
      modifies this
      ensures (Model(), sid) == ResolveSession(old(Model()), requested, clock)
    {
      if requested.Some? && requested.value != "" {
        sid := requested.value;
        if sid !in sessions {
          sid := SessionId(clock.millis);
          Store(EmptySession(sid, clock.stamp));
        }
      } else if current.Some? && current.value != "" && current.value in sessions {
        sid := current.value;
      } else {
        sid := SessionId(clock.millis);
        Store(EmptySession(sid, clock.stamp));
      }
      current := Some(sid);
    }

    /** The part of `ask` after resolution: prompt, model call, and the exchange appended to session `sid`. */
    method Answer(sid: string, question: string, docs: seq<Doc>, llm: string -> Option<string>, clock: Clock)
      returns (r: Result<Reply, AskError>)
      requires sid in sessions
      modifies this
      ensures (Model(), r) == Exchange(old(Model()), sid, question, docs, llm(AskPrompt(old(sessions[sid]), question, docs)), clock)
    {
      ghost var pre := Model();
      var session := sessions[sid];
      var history := BuildHistory(session.messages);
      var context := Context(docs);
      var sources := Sources(docs);
      var prompt := Prompt(context, history, question);
      assert prompt == AskPrompt(session, question, docs);
      var reply := llm(prompt);
      assert reply == llm(AskPrompt(pre.sessions[sid], question, docs));
      if reply.None? {
        assert Exchange(pre, sid, question, docs, reply, clock) == (pre, Failure(ModelFailed));
        return Failure(ModelFailed);
      }
      var answer := reply.value;
      var messages := session.messages + [UserMessage(question, clock.askedAt)];
      messages := messages + [AssistantMessage(answer, sources, clock.answeredAt)];
      var title := if |messages| == 2 then Title(question) else session.title;
      var recorded := session.(messages := messages, title := title);
      assert recorded == Record(session, question, answer, sources, clock.askedAt, clock.answeredAt);
      r := Success(Reply(answer, sources, sid));
      assert Exchange(pre, sid, question, docs, reply, clock) == (pre.(sessions := pre.sessions[sid := recorded]), r);
      sessions := sessions[sid := recorded];
    }

    /** The `ask` endpoint. */
    method Ask(question: string, requested: Option<string>, docs: seq<Doc>,
               llm: string -> Option<string>, clock: Clock) returns (r: Result<Reply, AskError>)
      requires Valid()
      modifies this
      ensures Valid()
      ensures (Model(), r) == AskSpec(old(Model()), question, requested, docs, llm, clock)
    {
      AskPreservesValid(Model(), question, requested, docs, llm, clock);
      if !hasIndex {
        return Failure(NoDocuments);
      }
      if !llmReady {
        return Failure(NoApiKey);
      }
      var sid := ResolveInPlace(requested, clock);
      r := Answer(sid, question, docs, llm, clock);
    }

    /** The `new_session` endpoint. */
    method NewSession(clock: Clock) returns (sid: string)
      requires Valid()
      modifies this
      ensures Valid()
      ensures (Model(), sid) == NewSessionSpec(old(Model()), clock)
    {
      NewSessionEffect(Model(), clock);
      sid := SessionId(clock.millis);
      Store(EmptySession(sid, clock.stamp));
      current := Some(sid);
    }

    /** The `delete_session` endpoint. */
    method DeleteSession(sid: string)
      requires Valid()
      modifies this
      ensures Valid()
      ensures Model() == DeleteSessionSpec(old(Model()), sid)
    {
      ghost var post := DeleteSessionSpec(Model(), sid);
      DeleteSessionEffect(Model(), sid);
      if sid in sessions {
        sessions := sessions - {sid};
        order := RemoveAll(order, sid);
      } else {
        assert sessions - {sid} == sessions;
        assert sid !in order;
      }
      if current == Some(sid) {
        current := None;
      }
      assert Model() == post;
    }

    /** The `upload` endpoint (see `UploadSpec` for the parameters standing for the libraries). */
    method Upload(filename: string, size: nat, millis: nat, read: Reader -> string, chunks: nat, indexed: bool)
      returns (r: Result<UploadReply, UploadError>)
      requires Valid()
      modifies this
      ensures Valid()
      ensures (Model(), r) == UploadSpec(old(Model()), filename, size, millis, read, chunks, indexed)
    {
      if !Accepted(filename) {
        return Failure(Unsupported);
      }
      var fid := FileId(millis, filename);
      var text := read(ReaderAsWritten(UploadPath(fid)));
      if !HasText(text) {
        return Failure(EmptyText);
      }
      if !indexed {
        return Failure(IndexFailed);
      }
      hasIndex := true;
      files := files[fid := FileMeta(filename, fid, chunks, size)];
      r := Success(UploadReply(filename, current));
    }

    /** The `delete_file` endpoint. */
    method DeleteFile(fid: string)
      requires Valid()
      modifies this
      ensures Valid()
      ensures Model() == DeleteFileSpec(old(Model()), fid)
    {
      if fid in files {
        files := files - {fid};
      }
    }

    /** The `clear_all` endpoint. */
    method ClearAll()
      requires Valid()
      modifies this
      ensures Valid()
      ensures Model() == ClearSpec(old(Model()))
    {
      hasIndex := false;
      files := map[];
    }
  }
}
