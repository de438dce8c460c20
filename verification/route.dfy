/** The Ask AI HTTP route (app/api/ask-ai/route.ts): request validation,
    the prompt it sends to the upstream chat-completion service, and the
    mapping of the upstream outcome to a response. The environment's API key,
    the parsed body and the upstream outcome are parameters; nothing is
    fetched. The route's own context builder is the same algorithm as the
    backend's and is taken from `Ranker`. */
module AskRoute {
  import opened Wrappers
  import opened Text
  import opened TodoModel
  import opened Sorting
  import opened Ranker

  const MissingKeyError: string :=
    "OPENAI_API_KEY is not configured on the server. Add it to your environment to enable Ask AI."
  const MissingQuestionError: string := "Missing question in request body."
  const UpstreamError: string := "Upstream AI provider returned an error."
  const UnexpectedError: string := "Unexpected error while handling Ask AI request."
  const FallbackReply: string := "I could not generate a response right now."
  const NoContextText: string := "No todos found."
  const NoHistoryText: string := "No previous messages."
  const AnonymousUser: string := "anonymous"
  const ChatModel: string := "gpt-4o-mini"
  const HistoryWindow: nat := 6

  const SystemPrompt: string :=
    "\nYou are an intelligent AI assistant embedded inside a modern todo application.\n" +
    "You have access to the user's current todos as context. Use ONLY that context when\n" +
    "talking about specific todos, and never invent tasks that are not listed.\n\n" +
    "Your goals:\n" +
    "- Help the user understand, search and plan based on their todos.\n" +
    "- When they ask \"what should I do next\" or similar, pick specific todos and justify why.\n" +
    "- When they reference something vaguely, match it to the closest todos by title/description/priority.\n" +
    "- Be concise but helpful. Prefer short paragraphs and bullets.\n" +
    "- You can suggest concrete actions (e.g. \"mark X done\", \"increase priority of Y\") but DO NOT claim you already modified data.\n"

  /** The `question` field as the route finds it in the JSON body. */
  datatype QuestionField = QuestionAbsent | QuestionText(text: string) | QuestionNotText

  /** The `messages` field: absent or null, an array, or some other value
      (on which `slice(...).map` throws). */
  datatype MessagesField = MessagesAbsent | MessageList(list: seq<Message>) | MessagesNotArray

  datatype Sender = User | Ai

  datatype Message = Message(id: string, text: string, sender: Sender)

  /** The `todos` field: an array is used as given, anything else as `[]`. */
  datatype TodosField = TodoList(list: seq<Todo>) | TodosNotArray

  datatype Body = Body(userId: Option<string>, question: QuestionField, messages: MessagesField, todos: TodosField)

  /** What the upstream call came to: the fetch or the JSON parse threw,
      the status was not ok, or a parsed reply whose first choice's content
      is a string (`Some`), missing (`None`), or present but not a string
      (on which `trim` throws). */
  datatype Upstream =
    | Unreachable
    | NotOk
    | Content(content: Option<string>)
    | ContentNotText

  datatype ChatRequest = ChatRequest(authorization: string, model: string, system: string, user: string)

  datatype Response = ErrorResponse(status: nat, error: string) | ReplyResponse(reply: string)

  /** One call of the route: the request sent upstream, if the route got
      that far, and the response. */
  datatype Exchange = Exchange(sent: Option<ChatRequest>, response: Response)

  /** `!question || typeof question !== 'string'` rejects the question. */
  predicate ValidQuestion(q: QuestionField) {
    q.QuestionText? && |q.text| > 0
  }

  function SafeTodos(f: TodosField): seq<Todo> {
    match f
    case TodoList(list) => list
    case TodosNotArray => []
  }

  function HistoryLine(m: Message): string {
    (if m.sender == User then "User" else "Assistant") + ": " + m.text
  }

  function HistoryLines(ms: seq<Message>): (r: seq<string>)
    ensures |r| == |ms|
    ensures forall i :: 0 <= i < |r| ==> r[i] == HistoryLine(ms[i])
  {
    seq(|ms|, i requires 0 <= i < |ms| => HistoryLine(ms[i]))
  }

  /** `slice(-6)`: the last six messages, or all of them when fewer. */
  function LastMessages(ms: seq<Message>): (r: seq<Message>)
    ensures |r| == if |ms| <= HistoryWindow then |ms| else HistoryWindow
    ensures r == ms[|ms| - |r|..]
  {
    if |ms| <= HistoryWindow then ms else ms[|ms| - HistoryWindow..]
  }

  /** The conversation snippet of a message list. */
  function Snippet(ms: seq<Message>): string {
    Join(HistoryLines(LastMessages(ms)), "\n")
  }

  function OrElse(s: string, fallback: string): string {
    if |s| > 0 then s else fallback
  }

  function PromptHead(userId: Option<string>): string {
    "\nUser id (may be null): " + userId.GetOr(AnonymousUser) + "\n\nUser question:\n"
  }

  const ContextHeading: string := "\n\nRelevant todos (from their personal list):\n"

  function PromptTail(snippet: string): string {
    "\n\nRecent chat history:\n" + OrElse(snippet, NoHistoryText) +
    "\n\nUsing ONLY the todos above as ground truth, answer the user's question.\n" +
    "If they ask to \"find\" or \"show\" something, explain which todos match and why.\n" +
    "If something is impossible with the current todos, explain what is missing.\n"
  }

  /** The user message sent upstream: user id, question, context text and
      conversation snippet, each under its heading, with the fallbacks for
      an empty context and an empty history. */
  function UserPrompt(userId: Option<string>, question: string, contextText: string, snippet: string): string {
    PromptHead(userId) + question + ContextHeading + OrElse(contextText, NoContextText) + PromptTail(snippet)
  }

  /** The response to a completed upstream call. */
  function Answer(u: Upstream): Response {
    match u
    case Unreachable => ErrorResponse(500, UnexpectedError)
    case NotOk => ErrorResponse(502, UpstreamError)
    case ContentNotText => ErrorResponse(500, UnexpectedError)
    case Content(c) =>
      match c
      case Some(text) => ReplyResponse(Trim(text))
      case None => ReplyResponse(FallbackReply)
  }

  /** `POST`. `apiKey` is the environment variable, `body` the parsed JSON
      body (`None` when parsing throws or the body is null) and `upstream`
      what the upstream call comes to if it is made. */
  function Post(apiKey: Option<string>, body: Option<Body>, upstream: Upstream): Exchange {
    if apiKey.None? || |apiKey.value| == 0 then
      Exchange(None, ErrorResponse(500, MissingKeyError))
    else if body.None? then
      Exchange(None, ErrorResponse(500, UnexpectedError))
    else
      var b := body.value;
      if !ValidQuestion(b.question) then
        Exchange(None, ErrorResponse(400, MissingQuestionError))
      else
        match b.messages
        case MessagesNotArray => Exchange(None, ErrorResponse(500, UnexpectedError))
        case _ => Exchange(Some(Request(apiKey.value, b.userId, b.question.text, SafeTodos(b.todos), MessagesOf(b.messages))), Answer(upstream))
  }

  /** The messages of the `messages` field; an absent one gives none. */
  function MessagesOf(f: MessagesField): seq<Message> {
    if f.MessageList? then f.list else []
  }

  /** The chat request for a validated question. */
  function Request(key: string, userId: Option<string>, question: string, todos: seq<Todo>, ms: seq<Message>): ChatRequest {
    var contextText := BuildTodoContext(todos, question).contextText;
    ChatRequest("Bearer " + key, ChatModel, SystemPrompt, UserPrompt(userId, question, contextText, Snippet(ms)))
  }

  // ---------------------------------------------------------------------
  // Properties

  /** The upstream service is called exactly when the key is set, the body
      parses, the question is a non-empty string and the messages field is
      absent or an array; the call carries the key as a bearer token. */
  lemma SendsIff(apiKey: Option<string>, body: Option<Body>, upstream: Upstream)
    ensures Post(apiKey, body, upstream).sent.Some? <==>
      && apiKey.Some? && |apiKey.value| > 0
      && body.Some? && ValidQuestion(body.value.question)
      && !body.value.messages.MessagesNotArray?
    ensures Post(apiKey, body, upstream).sent.Some? ==>
      && Post(apiKey, body, upstream).sent.value.authorization == "Bearer " + apiKey.value
      && Post(apiKey, body, upstream).sent.value.model == ChatModel
  {
  }

  /** Without a key nothing else matters: the route answers 500 before
      looking at the body. */
  lemma MissingKeyFirst(apiKey: Option<string>, body: Option<Body>, upstream: Upstream)
    requires apiKey.None? || apiKey.value == ""
    ensures Post(apiKey, body, upstream) == Exchange(None, ErrorResponse(500, MissingKeyError))
  {
  }

  /** With a key and a body, a missing, empty or non-string question is a
      400, and nothing is sent. */
  lemma InvalidQuestion(key: string, body: Body, upstream: Upstream)
    requires |key| > 0
    ensures Post(Some(key), Some(body), upstream).response.ErrorResponse? &&
            Post(Some(key), Some(body), upstream).response.status == 400
        <==> !ValidQuestion(body.question)
  {
    ResponseWithoutCall(Some(key), Some(body), upstream);
    AnswerShapes(upstream);
  }

  /** Without an upstream call the response is an error of status 400
      or 500; with one it is the upstream outcome's response. */
  lemma ResponseWithoutCall(apiKey: Option<string>, body: Option<Body>, upstream: Upstream)
    ensures var x := Post(apiKey, body, upstream);
      && (x.sent.None? ==> x.response.ErrorResponse? && x.response.status in {400, 500})
      && (x.sent.Some? ==> x.response == Answer(upstream))
  {
  }

  /** What the upstream outcome alone decides: a 502 exactly when the
      service answered not-ok, a reply exactly when it answered with a
      content, and a reply with no surrounding whitespace unless it is the
      fixed fallback. */
  lemma AnswerShapes(u: Upstream)
    ensures Answer(u).ErrorResponse? ==> Answer(u).status in {500, 502}
    ensures Answer(u).ErrorResponse? && Answer(u).status == 502 <==> u.NotOk?
    ensures Answer(u).ReplyResponse? <==> u.Content?
    ensures Answer(u).ReplyResponse? && Answer(u).reply != FallbackReply && |Answer(u).reply| > 0 ==>
      !IsSpace(Answer(u).reply[0]) && !IsSpace(Answer(u).reply[|Answer(u).reply| - 1])
  {
    match u
    case Content(c) =>
      if c.Some? {
        assert Answer(u).reply == Trim(c.value);
      }
    case _ =>
  }

  /** Every response is either a reply or an error with status 400, 500 or
      502; a 502 comes only from an upstream call that was made and did not
      return ok, and a reply only from one that returned content. */
  lemma ResponseShapes(apiKey: Option<string>, body: Option<Body>, upstream: Upstream)
    ensures var x := Post(apiKey, body, upstream);
      && (x.response.ErrorResponse? ==> x.response.status in {400, 500, 502})
      && (x.response.ErrorResponse? && x.response.status == 502 <==> x.sent.Some? && upstream.NotOk?)
      && (x.response.ReplyResponse? <==> x.sent.Some? && upstream.Content?)
  {
    ResponseWithoutCall(apiKey, body, upstream);
    AnswerShapes(upstream);
  }

  /** A missing content gives the fallback reply; a string content gives
      that string trimmed, so already-trimmed content passes unchanged. */
  lemma ReplyIsTrimmedContent(text: string)
    requires |text| > 0 ==> !IsSpace(text[0]) && !IsSpace(text[|text| - 1])
    ensures Answer(Content(Some(text))) == ReplyResponse(text)
    ensures Answer(Content(None)) == ReplyResponse(FallbackReply)
  {
    TrimTrimmed(text);
  }

  /** The context text is never empty, so the "No todos found." fallback of
      the prompt never appears: with no todos the prompt says the user has
      none instead. */
  lemma ContextFallbackUnused(todos: seq<Todo>, question: string)
    ensures OrElse(BuildTodoContext(todos, question).contextText, NoContextText)
         == BuildTodoContext(todos, question).contextText
    ensures |todos| == 0 ==> BuildTodoContext(todos, question).contextText == NoTodosContext
  {
  }

  /** The history fallback appears exactly when there are no messages. */
  lemma HistoryFallbackIff(ms: seq<Message>)
    ensures OrElse(Snippet(ms), NoHistoryText) == NoHistoryText <==> |ms| == 0
  {
    if |ms| > 0 {
      var lines := HistoryLines(LastMessages(ms));
      assert |lines[0]| > 0;
      JoinFirst(lines, "\n");
      assert Snippet(ms)[0] == lines[0][0];
      assert lines[0][0] == 'U' || lines[0][0] == 'A';
      assert Snippet(ms) != NoHistoryText;
    }
  }

  /** The snippet holds one line per message of the last six, oldest first,
      when no message text holds a line break. */
  lemma {:induction false} SnippetLines(ms: seq<Message>)
    requires |ms| > 0
    requires forall i :: 0 <= i < |ms| ==> '\n' !in ms[i].text
    ensures Split(Snippet(ms), '\n') == HistoryLines(LastMessages(ms))
    ensures |Split(Snippet(ms), '\n')| <= HistoryWindow
  {
    var last := LastMessages(ms);
    var lines := HistoryLines(last);
    forall i | 0 <= i < |lines| ensures '\n' !in lines[i] {
      assert last[i] == ms[|ms| - |last| + i];
      HistoryLineSingle(last[i]);
    }
    SplitJoin(lines, '\n');
  }

  lemma HistoryLineSingle(m: Message)
    requires '\n' !in m.text
    ensures '\n' !in HistoryLine(m)
  {
    var who := if m.sender == User then "User" else "Assistant";
    assert '\n' !in who;
    assert HistoryLine(m) == who + ": " + m.text;
  }

  /** The user prompt carries the question and the context text verbatim. */
  lemma PromptCarriesQuestionAndContext(userId: Option<string>, question: string, todos: seq<Todo>, snippet: string)
    ensures var ctx := BuildTodoContext(todos, question).contextText;
      Contains(UserPrompt(userId, question, ctx, snippet), question) &&
      Contains(UserPrompt(userId, question, ctx, snippet), ctx)
  {
    var ctx := BuildTodoContext(todos, question).contextText;
    var head := PromptHead(userId);
    var tail := PromptTail(snippet);
    assert OrElse(ctx, NoContextText) == ctx;
    ContainsSuffix(head, question);
    ContainsExtend(head + question, question, ContextHeading);
    ContainsExtend(head + question + ContextHeading, question, ctx);
    ContainsExtend(head + question + ContextHeading + ctx, question, tail);
    ContainsSuffix(head + question + ContextHeading, ctx);
    ContainsExtend(head + question + ContextHeading + ctx, ctx, tail);
  }

  /** The request the route sends carries the question, the context text
      built from the body's todos, and the fixed system prompt. */
  lemma SentRequestCarriesQuestion(key: string, body: Body, upstream: Upstream)
    requires Post(Some(key), Some(body), upstream).sent.Some?
    ensures var req := Post(Some(key), Some(body), upstream).sent.value;
      && req.system == SystemPrompt
      && Contains(req.user, body.question.text)
      && Contains(req.user, BuildTodoContext(SafeTodos(body.todos), body.question.text).contextText)
  {
    SentIsRequest(key, body, upstream);
    RequestCarriesQuestion(key, body.userId, body.question.text, SafeTodos(body.todos), MessagesOf(body.messages));
  }

  lemma SentIsRequest(key: string, body: Body, upstream: Upstream)
    requires Post(Some(key), Some(body), upstream).sent.Some?
    ensures ValidQuestion(body.question)
    ensures Post(Some(key), Some(body), upstream).sent.value ==
      Request(key, body.userId, body.question.text, SafeTodos(body.todos), MessagesOf(body.messages))
  {
    assert |key| > 0;
    assert ValidQuestion(body.question);
    assert !body.messages.MessagesNotArray?;
  }

  lemma RequestCarriesQuestion(key: string, userId: Option<string>, question: string, todos: seq<Todo>, ms: seq<Message>)
    ensures var req := Request(key, userId, question, todos, ms);
      && req.system == SystemPrompt
      && Contains(req.user, question)
      && Contains(req.user, BuildTodoContext(todos, question).contextText)
  {
    PromptCarriesQuestionAndContext(userId, question, todos, Snippet(ms));
  }

  /** The prompt's closing part carries the history snippet, or the
      no-history text when the snippet is empty. */
  lemma TailCarriesHistory(snippet: string)
    ensures Contains(PromptTail(snippet), OrElse(snippet, NoHistoryText))
  {
    var a := "\n\nRecent chat history:\n";
    var h := OrElse(snippet, NoHistoryText);
    var b := "\n\nUsing ONLY the todos above as ground truth, answer the user's question.\n";
    var c := "If they ask to \"find\" or \"show\" something, explain which todos match and why.\n";
    var d := "If something is impossible with the current todos, explain what is missing.\n";
    assert PromptTail(snippet) == a + h + b + c + d;
    ContainsSuffix(a, h);
    ContainsExtend(a + h, h, b);
    ContainsExtend(a + h + b, h, c);
    ContainsExtend(a + h + b + c, h, d);
  }

  /** A built request is authorised with the key, names the model, and its
      user message carries the history of the last messages. */
  lemma RequestCarriesHistory(key: string, userId: Option<string>, question: string, todos: seq<Todo>, ms: seq<Message>)
    ensures var req := Request(key, userId, question, todos, ms);
      && req.authorization == "Bearer " + key
      && req.model == ChatModel
      && Contains(req.user, OrElse(Snippet(ms), NoHistoryText))
  {
    var ctx := BuildTodoContext(todos, question).contextText;
    var head := PromptHead(userId) + question + ContextHeading + OrElse(ctx, NoContextText);
    TailCarriesHistory(Snippet(ms));
    ContainsPrepend(head, PromptTail(Snippet(ms)), OrElse(Snippet(ms), NoHistoryText));
  }

  /** The request the route sends is authorised with the key, names the
      model, and its user message carries the last messages' history (or
      the no-history text); a `todos` field that is not an array gives the
      no-todos context. */
  lemma SentRequestCarriesHistory(key: string, body: Body, upstream: Upstream)
    requires Post(Some(key), Some(body), upstream).sent.Some?
    ensures var req := Post(Some(key), Some(body), upstream).sent.value;
      && req.authorization == "Bearer " + key
      && req.model == ChatModel
      && Contains(req.user, OrElse(Snippet(MessagesOf(body.messages)), NoHistoryText))
      && (body.todos.TodosNotArray? ==> Contains(req.user, NoTodosContext))
  {
    SentIsRequest(key, body, upstream);
    SentRequestCarriesQuestion(key, body, upstream);
    RequestCarriesHistory(key, body.userId, body.question.text, SafeTodos(body.todos), MessagesOf(body.messages));
  }
}
