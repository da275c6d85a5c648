/** The `/api/chat` handler of the server, minus its network calls: it picks
    the latest user message, answers from the canned table when a trigger word
    matches, and otherwise assembles the message list sent to the language
    model, with retrieved document context when the question asks for it. */
module Chat {
  import opened Text
  import opened Wrappers
  import opened Routing
  import opened Retrieval

  /** One entry of the conversation history, as the browser posts it. */
  datatype Message = Message(role: string, content: string)

  const UserRole := "user"
  const SystemRole := "system"

  /** The system prompt when the environment sets none. */
  const DefaultSystemPrompt := "Eres un asistente amable y claro."

  /** The heading put in front of retrieved context. */
  const ContextHeader := "Informaci\U{F3}n relevante de documentos:\n"

  /** What the handler answers: a canned text (sent as `{ text }` at once), or
      the message list it forwards to the language model. */
  datatype ChatReply = Canned(text: string) | Forward(input: seq<Message>)

  /** Message `i` is the last one written by the user. */
  predicate IsLastUser(ms: seq<Message>, i: int) {
    0 <= i < |ms| && ms[i].role == UserRole && forall j :: i < j < |ms| ==> ms[j].role != UserRole
  }

  /** `messages.filter(m => m.role === "user")`. */
  function UserMessages(ms: seq<Message>): (r: seq<Message>)
    ensures forall k :: 0 <= k < |r| ==> r[k].role == UserRole
    ensures |r| == 0 <==> forall i :: 0 <= i < |ms| ==> ms[i].role != UserRole
    ensures forall i :: IsLastUser(ms, i) ==> |r| > 0 && Last(r) == ms[i]
  {
    if |ms| == 0 then []
    else
      var init := UserMessages(Init(ms));
      if Last(ms).role == UserRole then
        UserSnoc(init, Last(ms));
        init + [Last(ms)]
      else
        LastUserOfInit(ms);
        init
  }

  /** `idx` lists, in increasing order, exactly the positions of `ms` that
      hold user messages, and `r` holds the messages at those positions. */
  predicate Selects(ms: seq<Message>, r: seq<Message>, idx: seq<nat>) {
    && |idx| == |r|
    && (forall k :: 0 <= k < |idx| ==> idx[k] < |ms| && ms[idx[k]] == r[k] && ms[idx[k]].role == UserRole)
    && (forall k, l :: 0 <= k < l < |idx| ==> idx[k] < idx[l])
    && (forall i :: 0 <= i < |ms| && ms[i].role == UserRole ==> i in idx)
  }

  /** `filter` keeps every user message, in order, and nothing else. */
  lemma {:induction false} UserMessagesSelects(ms: seq<Message>)
    ensures exists idx :: Selects(ms, UserMessages(ms), idx)
  {
    if |ms| == 0 {
      assert Selects(ms, UserMessages(ms), []);
    } else {
      var pre, m := Init(ms), Last(ms);
      assert ms == pre + [m];
      var init := UserMessages(pre);
      UserMessagesSelects(pre);
      var idx :| Selects(pre, init, idx);
      if m.role == UserRole {
        assert UserMessages(ms) == init + [m];
        SelectsSnocUser(pre, m, init, idx);
      } else {
        assert UserMessages(ms) == init;
        SelectsSnocOther(pre, m, init, idx);
      }
    }
  }

  /** A user message at the end is selected at the last position. */
  lemma SelectsSnocUser(pre: seq<Message>, m: Message, r: seq<Message>, idx: seq<nat>)
    requires Selects(pre, r, idx) && m.role == UserRole
    ensures Selects(pre + [m], r + [m], idx + [|pre|])
  {
    var ms, r', idx' := pre + [m], r + [m], idx + [|pre|];
    forall k | 0 <= k < |idx|
      ensures idx'[k] == idx[k] && r'[k] == r[k] && ms[idx[k]] == pre[idx[k]]
    {
    }
    forall i | 0 <= i < |ms| && ms[i].role == UserRole ensures i in idx' {
      if i < |pre| {
        assert pre[i] == ms[i];
        assert i in idx;
      } else {
        assert idx'[|idx|] == i;
      }
    }
  }

  /** Any other message at the end is not selected. */
  lemma SelectsSnocOther(pre: seq<Message>, m: Message, r: seq<Message>, idx: seq<nat>)
    requires Selects(pre, r, idx) && m.role != UserRole
    ensures Selects(pre + [m], r, idx)
  {
    var ms := pre + [m];
    forall k | 0 <= k < |idx| ensures ms[idx[k]] == pre[idx[k]] {
    }
    forall i | 0 <= i < |ms| && ms[i].role == UserRole ensures i in idx {
      assert i < |pre| && pre[i] == ms[i];
    }
  }

  /** Appending a user message to user messages. */
  lemma UserSnoc(init: seq<Message>, m: Message)
    requires forall k :: 0 <= k < |init| ==> init[k].role == UserRole
    requires m.role == UserRole
    ensures var r := init + [m];
      && (forall k :: 0 <= k < |r| ==> r[k].role == UserRole)
      && |r| > 0 && Last(r) == m
  {
  }

  /** When the last message is not the user's, the last user message is the
      one of the earlier history. */
  lemma LastUserOfInit(ms: seq<Message>)
    requires |ms| > 0 && Last(ms).role != UserRole
    ensures forall i :: IsLastUser(ms, i) ==> IsLastUser(Init(ms), i) && ms[i] == Init(ms)[i]
    ensures (forall i :: 0 <= i < |ms| ==> ms[i].role != UserRole)
        <==> (forall i :: 0 <= i < |ms| - 1 ==> Init(ms)[i].role != UserRole)
  {
    assert forall i :: 0 <= i < |ms| - 1 ==> ms[i] == Init(ms)[i];
  }

  /** `ultimoMensaje`: the content of the last user message, or "" when there
      is none (`|| ""` also maps an empty content to "", which changes nothing
      for a string). */
  function UltimoMensaje(ms: seq<Message>): (r: string)
    ensures (forall i :: 0 <= i < |ms| ==> ms[i].role != UserRole) ==> r == ""
    ensures forall i :: IsLastUser(ms, i) ==> r == ms[i].content
  {
    var users := UserMessages(ms);
    if |users| == 0 then "" else Last(users).content
  }

  /** `process.env.SYSTEM_PROMPT || DefaultSystemPrompt`: an unset or empty
      variable falls back to the default. */
  function SystemPrompt(env: Option<string>): (r: string)
    ensures r != ""
    ensures env.Some? && env.value != "" ==> r == env.value
    ensures env.None? || env.value == "" ==> r == DefaultSystemPrompt
  {
    match env
    case Some(p) => if p != "" then p else DefaultSystemPrompt
    case None => DefaultSystemPrompt
  }

  /** `inputMessages`: the system prompt, the whole history in order, and one
      more system message carrying the context when there is any. */
  function BuildInput(prompt: string, ms: seq<Message>, context: string): (r: seq<Message>)
    ensures |r| == |ms| + 1 + (if context == "" then 0 else 1)
    ensures r[0] == Message(SystemRole, prompt)
    ensures r[1..|ms| + 1] == ms
    ensures context != "" ==> Last(r) == Message(SystemRole, ContextHeader + context)
  {
    var base := [Message(SystemRole, prompt)] + ms;
    if context != "" then base + [Message(SystemRole, ContextHeader + context)] else base
  }

  /** The context of a request: retrieved only when the question contains a
      document keyword. */
  function RequestContext(question: string, store: seq<Chunk>, score: Chunk -> real): (r: string)
    ensures !Conversacion(question) ==> r == ""
    ensures Conversacion(question) && |store| == 0 ==> r == ""
  {
    if Conversacion(question) then Context(store, score) else ""
  }

  /** The `/api/chat` handler. `store` is the chunk list loaded at start-up,
      `env` the `SYSTEM_PROMPT` variable, and `score(c)` the cosine similarity
      of chunk `c` with the question's embedding. */
  function HandleChat(ms: seq<Message>, env: Option<string>, store: seq<Chunk>, score: Chunk -> real): (r: ChatReply)
    ensures r.Canned? <==> DetectFunction(UltimoMensaje(ms)).Some?
    ensures r.Forward? ==> (|r.input| >= |ms| + 1
                            && r.input[0] == Message(SystemRole, SystemPrompt(env))
                            && r.input[1..|ms| + 1] == ms)
  {
    var q := UltimoMensaje(ms);
    match DetectFunction(q)
    case Some(f) => Canned(f.reply)
    case None => Forward(BuildInput(SystemPrompt(env), ms, RequestContext(q, store, score)))
  }

  /** A canned match answers with exactly that entry's text, whatever the store,
      scores or system prompt: neither retrieval nor prompt assembly happens. */
  lemma CannedShortCircuits(ms: seq<Message>, env: Option<string>, store: seq<Chunk>, score: Chunk -> real,
                            env': Option<string>, store': seq<Chunk>, score': Chunk -> real, j: nat)
    requires j < |Funciones| && Fires(Funciones[j], Lower(UltimoMensaje(ms)))
    requires forall j' :: 0 <= j' < j ==> !Fires(Funciones[j'], Lower(UltimoMensaje(ms)))
    ensures HandleChat(ms, env, store, score) == Canned(Funciones[j].reply)
    ensures HandleChat(ms, env, store, score) == HandleChat(ms, env', store', score')
  {
    var d := DetectFunction(UltimoMensaje(ms));
    assert d.Some?;
    var k :| 0 <= k < |Funciones| && d.value == Funciones[k] && Fires(Funciones[k], Lower(UltimoMensaje(ms)))
             && forall j' :: 0 <= j' < k ==> !Fires(Funciones[j'], Lower(UltimoMensaje(ms)));
    assert k == j;
  }

  /** Without a document keyword the model gets only the system prompt and the
      history; the store and the scores play no part. */
  lemma NoKeywordNoRetrieval(ms: seq<Message>, env: Option<string>, store: seq<Chunk>, score: Chunk -> real,
                             store': seq<Chunk>, score': Chunk -> real)
    requires DetectFunction(UltimoMensaje(ms)).None?
    requires !Conversacion(UltimoMensaje(ms))
    ensures HandleChat(ms, env, store, score) == Forward([Message(SystemRole, SystemPrompt(env))] + ms)
    ensures HandleChat(ms, env, store, score) == HandleChat(ms, env, store', score')
  {
  }

  /** With a document keyword and no canned match, the context message is
      present exactly when the joined top chunks are non-empty, and it carries
      them. */
  lemma KeywordAddsContext(ms: seq<Message>, env: Option<string>, store: seq<Chunk>, score: Chunk -> real)
    requires DetectFunction(UltimoMensaje(ms)).None?
    requires Conversacion(UltimoMensaje(ms))
    ensures var r := HandleChat(ms, env, store, score);
      && r.Forward?
      && (Context(store, score) == "" ==> r.input == [Message(SystemRole, SystemPrompt(env))] + ms)
      && (Context(store, score) != "" ==>
           r.input == [Message(SystemRole, SystemPrompt(env))] + ms
                      + [Message(SystemRole, ContextHeader + Context(store, score))])
  {
  }

  /** The greeting `{messages: [{role: "user", content: "hola"}]}` gets the
      canned greeting and no model call. */
  lemma HolaGetsGreeting(env: Option<string>, store: seq<Chunk>, score: Chunk -> real)
    ensures HandleChat([Message(UserRole, "hola")], env, store, score) == Canned(Greeting)
  {
    var ms := [Message(UserRole, "hola")];
    assert IsLastUser(ms, 0);
    HolaIsGreeting();
  }
}
