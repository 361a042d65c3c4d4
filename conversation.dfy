/**
 * One chat session of the backend (an entry of `chat_sessions`) and the pure
 * parts of the `ask` endpoint: choosing the session, the history window, the
 * de-duplicated source list, the joined context, the prompt and the title rule.
 */
module Conversation {
  import opened Wrappers
  import opened Text

  /** A message dict: `role`, `content`, `time` and, on assistant messages only, `sources`. */
  datatype Message = Message(role: string, content: string, time: string, sources: Option<seq<string>>)

  /** A session dict: `{id, messages, title, created}`. */
  datatype Session = Session(id: string, messages: seq<Message>, title: string, created: string)

  /** One document returned by the similarity search: its text and its `source` metadata, if any. */
  datatype Doc = Doc(content: string, source: Option<string>)

  const NewChatTitle: string := "New Chat"
  const TitleLength: nat := 40
  const Ellipsis: string := "..."
  const HistoryWindow: nat := 4
  const UnknownSource: string := "Unknown"
  const ContextSeparator: string := "\n\n"

  /** The session `ask` and `new_session` create: no messages, title "New Chat". */
  function EmptySession(id: string, created: string): Session {
    Session(id, [], NewChatTitle, created)
  }

  /** Python truthiness of an optional string: present and not empty. */
  predicate Truthy(o: Option<string>) {
    o.Some? && o.value != ""
  }

  /** Session id minted from the clock: `f"s{int(time.time()*1000)}"`. */
  function SessionId(millis: nat): (sid: string)
    ensures |sid| >= 2 && sid[0] == 's' && sid[1..] == Decimal(millis)
  {
    "s" + Decimal(millis)
  }

  /** Ids minted at different milliseconds differ. */
  lemma SessionIdsDistinct(a: nat, b: nat)
    requires a != b
    ensures SessionId(a) != SessionId(b)
  {
    if SessionId(a) == SessionId(b) {
      assert SessionId(a)[1..] == Decimal(a);
      assert SessionId(b)[1..] == Decimal(b);
      DecimalInjective(a, b);
    }
  }

  /** How `ask` settles on a session: reuse a known one, or create one under the minted id. */
  datatype Resolution = Reuse(id: string) | Create(id: string)

  /**
   * Session resolution in `ask`: an explicit, non-empty id is reused when known and
   * otherwise replaced by a freshly minted one; with no id, the current session is
   * reused when it still exists, and a new one is minted otherwise.
   */
  function Resolve(known: set<string>, current: Option<string>, requested: Option<string>, minted: string): (r: Resolution)
    ensures r.Reuse? ==> r.id in known
    ensures r.Create? ==> r.id == minted
    ensures Truthy(requested) ==> (r.Reuse? <==> requested.value in known)
    ensures Truthy(requested) && r.Reuse? ==> r.id == requested.value
    ensures !Truthy(requested) ==> (r.Reuse? <==> Truthy(current) && current.value in known)
    ensures !Truthy(requested) && r.Reuse? ==> r.id == current.value
  {
    if Truthy(requested) then
      if requested.value in known then Reuse(requested.value) else Create(minted)
    else if Truthy(current) && current.value in known then Reuse(current.value)
    else Create(minted)
  }

  /** The title given after the first exchange: `question[:40] + "..."`. */
  function Title(question: string): (t: string)
    ensures |t| == (if |question| <= TitleLength then |question| else TitleLength) + |Ellipsis|
    ensures t[..|t| - |Ellipsis|] == question[..|t| - |Ellipsis|]
    ensures t[|t| - |Ellipsis|..] == Ellipsis
  {
    Take(question, TitleLength) + Ellipsis
  }

  function UserMessage(question: string, time: string): Message {
    Message("user", question, time, None)
  }

  function AssistantMessage(answer: string, sources: seq<string>, time: string): Message {
    Message("assistant", answer, time, Some(sources))
  }

  /**
   * A session after a successful `ask`: the question and the answer appended, in that
   * order, and the title set from the question exactly when these are its first two messages.
   */
  function Record(s: Session, question: string, answer: string, sources: seq<string>, askedAt: string, answeredAt: string): (r: Session)
    ensures r.id == s.id && r.created == s.created
    ensures |r.messages| == |s.messages| + 2 && r.messages[..|s.messages|] == s.messages
    ensures r.messages[|s.messages|] == UserMessage(question, askedAt)
    ensures r.messages[|s.messages| + 1] == AssistantMessage(answer, sources, answeredAt)
    ensures r.title == if s.messages == [] then Title(question) else s.title
  {
    var messages := s.messages + [UserMessage(question, askedAt)] + [AssistantMessage(answer, sources, answeredAt)];
    s.(messages := messages, title := if |messages| == 2 then Title(question) else s.title)
  }

  /** Once a session holds an exchange, further exchanges never change its title. */
  lemma TitleSettles(s: Session, q1: string, a1: string, src1: seq<string>, t1: string, u1: string,
                     q2: string, a2: string, src2: seq<string>, t2: string, u2: string)
    ensures Record(Record(s, q1, a1, src1, t1, u1), q2, a2, src2, t2, u2).title == Record(s, q1, a1, src1, t1, u1).title
    ensures s.messages == [] ==> Record(Record(s, q1, a1, src1, t1, u1), q2, a2, src2, t2, u2).title == Title(q1)
  {
  }

  /** `messages[-4:]`: the last four messages, or all of them when there are fewer. */
  function Window(messages: seq<Message>): (w: seq<Message>)
    ensures |w| == if |messages| <= HistoryWindow then |messages| else HistoryWindow
    ensures w == messages[|messages| - |w|..]
  {
    if |messages| <= HistoryWindow then messages else messages[|messages| - HistoryWindow..]
  }

  /** The newest exchange is always the tail of the next history window. */
  lemma {:induction false} WindowKeepsLastExchange(messages: seq<Message>, user: Message, assistant: Message)
    ensures Window(messages + [user, assistant])[|Window(messages + [user, assistant])| - 2..] == [user, assistant]
  {
    var all := messages + [user, assistant];
    var w := Window(all);
    assert |w| >= 2;
    assert w[|w| - 2] == all[|all| - 2] == user;
    assert w[|w| - 1] == all[|all| - 1] == assistant;
  }

  /** Who a history line is attributed to: "User" for role `user`, "AI" for any other role. */
  function Speaker(role: string): string {
    if role == "user" then "User" else "AI"
  }

  /** One history line: `f"{'User' if m['role']=='user' else 'AI'}: {m['content']}\n"`. */
  function Line(m: Message): string {
    Speaker(m.role) + ": " + m.content + "\n"
  }

  /** The lines of `messages`, concatenated in order. */
  function HistoryText(messages: seq<Message>): string {
    if messages == [] then "" else Line(messages[0]) + HistoryText(messages[1..])
  }

  /** The history of two consecutive runs of messages is the history of one, then the other. */
  lemma {:induction false} HistoryTextAppend(a: seq<Message>, b: seq<Message>)
    ensures HistoryText(a + b) == HistoryText(a) + HistoryText(b)
  {
    if a == [] {
      assert a + b == b;
    } else {
      assert (a + b)[0] == a[0] && (a + b)[1..] == a[1..] + b;
      HistoryTextAppend(a[1..], b);
    }
  }

  /** Each history line starts with the speaker the role calls for, and carries the content. */
  lemma {:induction false} HistoryTextStartsWithSpeaker(messages: seq<Message>)
    requires messages != []
    ensures var h := HistoryText(messages);
            var m := messages[0];
            var tag := if m.role == "user" then "User: " else "AI: ";
            |tag| + |m.content| < |h| && h[..|tag|] == tag && h[|tag|..|tag| + |m.content|] == m.content
  {
    var m := messages[0];
    var h := HistoryText(messages);
    var tag := if m.role == "user" then "User: " else "AI: ";
    assert Speaker(m.role) + ": " == tag;
    assert h == tag + m.content + ("\n" + HistoryText(messages[1..]));
  }

  /**
   * The history loop of `ask`: one line per message of the window, oldest first,
   * accumulated into a string.
   */
  method BuildHistory(messages: seq<Message>) returns (history: string)
    ensures history == HistoryText(Window(messages))
  {
    var window := Window(messages);
    history := "";
    for i := 0 to |window|
      invariant history == HistoryText(window[..i])
    {
      assert window[..i + 1] == window[..i] + [window[i]];
      HistoryTextAppend(window[..i], [window[i]]);
      assert HistoryText([window[i]]) == Line(window[i]) + HistoryText([]);
      history := history + Line(window[i]);
    }
    assert window[..|window|] == window;
  }

  /** `d.metadata.get('source', 'Unknown')`. */
  function Label(d: Doc): string {
    match d.source
    case Some(name) => name
    case None => UnknownSource
  }

  predicate NoDuplicates<T(==)>(s: seq<T>) {
    forall i, j :: 0 <= i < j < |s| ==> s[i] != s[j]
  }

  /** The distinct elements of `xs`, each once. */
  function Dedup(xs: seq<string>): (r: seq<string>)
    ensures NoDuplicates(r)
    ensures forall x :: x in r <==> x in xs
    ensures |r| <= |xs|
  {
    if xs == [] then []
    else if xs[0] in xs[1..] then Dedup(xs[1..])
    else [xs[0]] + Dedup(xs[1..])
  }

  function Labels(docs: seq<Doc>): (r: seq<string>)
    ensures |r| == |docs| && forall i :: 0 <= i < |docs| ==> r[i] == Label(docs[i])
  {
    if docs == [] then [] else [Label(docs[0])] + Labels(docs[1..])
  }

  /**
   * `list(set(...))` over the docs' source labels: every label once, and nothing else.
   * Python's set gives no order; this model keeps the last occurrence of each label.
   */
  function Sources(docs: seq<Doc>): (r: seq<string>)
    ensures NoDuplicates(r)
    ensures forall x :: x in r <==> exists i :: 0 <= i < |docs| && Label(docs[i]) == x
    ensures |r| <= |docs|
  {
    Dedup(Labels(docs))
  }

  function Contents(docs: seq<Doc>): (r: seq<string>)
    ensures |r| == |docs| && forall i :: 0 <= i < |docs| ==> r[i] == docs[i].content
  {
    if docs == [] then [] else [docs[0].content] + Contents(docs[1..])
  }

  /** `"\n\n".join(d.page_content for d in docs)`, in the order the search ranked them. */
  function Context(docs: seq<Doc>): string {
    Join(ContextSeparator, Contents(docs))
  }

  /** The context of two ranked runs of docs is the context of the first, a blank line, then the second. */
  lemma ContextAppend(a: seq<Doc>, b: seq<Doc>)
    requires a != [] && b != []
    ensures Context(a + b) == Context(a) + ContextSeparator + Context(b)
    ensures Context([a[0]]) == a[0].content
  {
    var ca, cb := Contents(a), Contents(b);
    assert Contents(a + b) == ca + cb by {
      assert |Contents(a + b)| == |ca + cb|;
      forall i | 0 <= i < |ca + cb| ensures Contents(a + b)[i] == (ca + cb)[i] {
        assert (a + b)[i] == if i < |a| then a[i] else b[i - |a|];
      }
    }
    JoinAppend(ContextSeparator, ca, cb);
    assert Contents([a[0]]) == [a[0].content];
  }

  const PromptIntro: string := "Answer based on context. Use history for references.\n\nContext:\n"
  const PromptHistory: string := "\n\nHistory:\n"
  const PromptQuestion: string := "\n\nQuestion: "
  const PromptOutro: string := "\n\nAnswer clearly with source at end like \"Source: filename.pdf\":"

  /** The prompt f-string of `ask`. */
  function Prompt(context: string, history: string, question: string): string {
    PromptIntro + context + PromptHistory + history + PromptQuestion + question + PromptOutro
  }

  /** The prompt carries the context, the history and the question, each at the place its heading announces. */
  lemma PromptLayout(context: string, history: string, question: string)
    ensures var p := Prompt(context, history, question);
            var c0 := |PromptIntro|;
            var h0 := c0 + |context| + |PromptHistory|;
            var q0 := h0 + |history| + |PromptQuestion|;
            && |p| == q0 + |question| + |PromptOutro|
            && p[..c0] == PromptIntro
            && p[c0..c0 + |context|] == context
            && p[c0 + |context|..h0] == PromptHistory
            && p[h0 + |history|..q0] == PromptQuestion
            && p[h0..h0 + |history|] == history
            && p[q0..q0 + |question|] == question
            && p[|p| - |PromptOutro|..] == PromptOutro
  {
  }
}
