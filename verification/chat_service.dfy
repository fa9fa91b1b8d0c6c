/** The chat application service: one user turn runs a fixed pipeline over
    the chat table and the product table, threaded through as values. The
    text generator is a parameter, a total function that either produces a
    reply or fails; the clock readings of a turn are parameters too. */
module ChatService {
  import opened Wrappers
  import opened Entities
  import Text
  import Chats = ChatRepository
  import Products = ProductRepository
  import Repositories

  /** `ChatMessageRequestDTO`. */
  datatype Request = Request(sessionId: string, message: string)

  /** `ChatMessageResponseDTO`. */
  datatype Response = Response(sessionId: string, response: string, timestamp: int)

  /** The clock readings of one turn: the user message's construction, the
      assistant message's construction and the response's construction. */
  datatype Clock = Clock(userAt: int, assistantAt: int, respondedAt: int)

  /** Both tables the service reads and writes. */
  datatype Store = Store(chats: Chats.ChatTable, products: Products.ProductTable)

  /** The arguments the generator was called with. */
  datatype Prompt = Prompt(userMessage: string, products: seq<Product>, context: ChatContext)

  /** The effect of one turn: the store afterwards, the outcome, and the
      generator call if the pipeline got that far. */
  datatype Turn = Turn(store: Store, outcome: Result<Response, Error>, prompt: Option<Prompt>)

  /** The text generator: the user's message, the catalogue and the
      conversation context give a reply or a failure description. */
  type Generator = (string, seq<Product>, ChatContext) -> Result<string, string>

  /** How many recent messages the service reads back as context. */
  const RecentWindow: int := 6

  /** `get_session_history`'s default limit. */
  const DefaultHistoryLimit: int := 10

  /** A request both of whose strings are non-blank. */
  predicate Accepted(req: Request) {
    !Text.AllSpace(req.sessionId) && !Text.AllSpace(req.message)
  }

  /** The row the user's message is stored as. */
  function UserRow(st: Store, req: Request, clock: Clock): Chats.Row {
    Chats.Row(Chats.NextId(st.chats), req.sessionId, UserRole, req.message, clock.userAt)
  }

  /** The row the assistant's reply is stored as, right after the user's. */
  function AssistantRow(st: Store, req: Request, clock: Clock, text: string): Chats.Row {
    Chats.Row(Chats.NextId(st.chats) + 1, req.sessionId, AssistantRole, text, clock.assistantAt)
  }

  /** What the generator answered, when it was called. */
  function Reply(r: Turn, gen: Generator): Option<Result<string, string>> {
    match r.prompt
    case None => None
    case Some(p) => Some(gen(p.userMessage, p.products, p.context))
  }

  /** `process_user_message(request)`: build and save the user's message,
      read the session's six most recent messages as context, read the
      catalogue, call the generator, build and save the assistant's message,
      and answer with the session id and the reply. Nothing is caught: the
      first failing step ends the turn with its error, and what was saved
      before it stays saved. */
  function ProcessUserMessage(st: Store, req: Request, clock: Clock, gen: Generator): (r: Turn)
    // a rejected request writes nothing and never reaches the generator
    ensures Text.AllSpace(req.sessionId) ==> r == Turn(st, Failure(BlankSessionId), None)
    ensures !Text.AllSpace(req.sessionId) && Text.AllSpace(req.message) ==>
      r == Turn(st, Failure(BlankMessage), None)
    // the catalogue is only read
    ensures r.store.products == st.products
    // once accepted, the user's row is never rolled back; a successful turn
    // adds the assistant's row holding the reply right after it, and answers
    // for the request's session
    ensures Accepted(req) && r.outcome.Failure? ==> r.store.chats == st.chats + [UserRow(st, req, clock)]
    ensures r.outcome.Success? ==>
      && Accepted(req)
      && r.store.chats == st.chats + [UserRow(st, req, clock), AssistantRow(st, req, clock, r.outcome.value.response)]
      && r.outcome.value.sessionId == req.sessionId
      && r.outcome.value.timestamp == clock.respondedAt
    // the generator was called exactly when the request was accepted and both
    // reads succeeded, which well-formed tables guarantee
    ensures r.prompt.Some? ==> Accepted(req)
    ensures Accepted(req) && Chats.WellFormed(st.chats) && Products.WellFormed(st.products) ==>
      r.prompt.Some?
    ensures Chats.WellFormed(st.chats) ==> Chats.WellFormed(r.store.chats)
    // an accepted request is the rest of the pipeline after the user's row
    ensures Accepted(req) ==> r == Converse(st, req, clock, gen)
  {
    match NewChatMessage(None, req.sessionId, UserRole, req.message, Some(clock.userAt))
    case Failure(e) => Turn(st, Failure(e), None)
    case Success(user) =>
      var saved := Chats.SaveMessage(st.chats, user, clock.userAt).0;
      assert saved == st.chats + [UserRow(st, req, clock)];
      Converse(st, req, clock, gen)
  }

  /** Steps 2 to 6 of a turn, once the user's row is saved: read the context
      and the catalogue, call the generator and answer. */
  function Converse(st: Store, req: Request, clock: Clock, gen: Generator): (r: Turn)
    requires Accepted(req)
    // the catalogue is only read
    ensures r.store.products == st.products
    // the user's row stays; the assistant's row follows it exactly on success
    ensures r.outcome.Failure? ==> r.store.chats == st.chats + [UserRow(st, req, clock)]
    ensures r.outcome.Success? ==>
      r.store.chats == st.chats + [UserRow(st, req, clock), AssistantRow(st, req, clock, r.outcome.value.response)]
    // the generator sees the request's text, the catalogue and a context of
    // at most six messages of this session, read after the user's row was saved
    ensures r.prompt.Some? ==>
      var p := r.prompt.value;
      && p.userMessage == req.message
      && Products.GetAll(st.products) == Success(p.products)
      && p.context.maxMessages == DefaultMaxMessages
      && Chats.GetRecentMessages(st.chats + [UserRow(st, req, clock)], req.sessionId, RecentWindow)
         == Success(p.context.messages)
    // on well-formed tables the generator is reached
    ensures Chats.WellFormed(st.chats) && Products.WellFormed(st.products) ==> r.prompt.Some?
    // what the generator answered decides the outcome
    ensures r.prompt.None? ==> r.outcome.Failure?
    ensures r.prompt.Some? ==> r == Answer(st, req, clock, r.prompt.value, Reply(r, gen).value)
    ensures Chats.WellFormed(st.chats) ==> Chats.WellFormed(r.store.chats)
  {
    var chats1 := st.chats + [UserRow(st, req, clock)];
    var st1 := st.(chats := chats1);
    UserRowWellFormed(st, req, clock);
    match Chats.GetRecentMessages(chats1, req.sessionId, RecentWindow)
    case Failure(e) => Turn(st1, Failure(e), None)
    case Success(recent) =>
      var context := ChatContext(recent, DefaultMaxMessages);
      match Products.GetAll(st.products)
      case Failure(e) => Turn(st1, Failure(e), None)
      case Success(products) =>
        var prompt := Prompt(req.message, products, context);
        Answer(st, req, clock, prompt, gen(req.message, products, context))
  }

  /** Steps 5 and 6: turn the generator's answer into the assistant's row and
      the response. A failure of the generator propagates; a blank reply
      fails the assistant message's construction. */
  function Answer(st: Store, req: Request, clock: Clock, prompt: Prompt, reply: Result<string, string>): (r: Turn)
    requires Accepted(req)
    ensures r.prompt == Some(prompt)
    ensures r.store.products == st.products
    ensures reply.Failure? ==> r.outcome == Failure(GenerationFailed(reply.error))
    ensures reply.Success? && Text.AllSpace(reply.value) ==> r.outcome == Failure(BlankMessage)
    ensures r.outcome.Success? <==> reply.Success? && !Text.AllSpace(reply.value)
    ensures r.outcome.Success? ==>
      && r.outcome.value == Response(req.sessionId, reply.value, clock.respondedAt)
      && r.store.chats == st.chats + [UserRow(st, req, clock), AssistantRow(st, req, clock, reply.value)]
    ensures r.outcome.Failure? ==> r.store.chats == st.chats + [UserRow(st, req, clock)]
  {
    match reply
    case Failure(detail) =>
      Turn(st.(chats := st.chats + [UserRow(st, req, clock)]), Failure(GenerationFailed(detail)), Some(prompt))
    case Success(text) => AnswerText(st, req, clock, prompt, text)
  }

  /** The rest of the turn once the generator has produced `text`: the
      assistant message is built and saved, unless the text is blank. */
  function AnswerText(st: Store, req: Request, clock: Clock, prompt: Prompt, text: string): (r: Turn)
    requires Accepted(req)
    ensures r.prompt == Some(prompt)
    ensures r.store.products == st.products
    ensures Text.AllSpace(text) ==>
      && r.outcome == Failure(BlankMessage)
      && r.store.chats == st.chats + [UserRow(st, req, clock)]
    ensures !Text.AllSpace(text) ==>
      && r.outcome == Success(Response(req.sessionId, text, clock.respondedAt))
      && r.store.chats == st.chats + [UserRow(st, req, clock), AssistantRow(st, req, clock, text)]
  {
    var chats1 := st.chats + [UserRow(st, req, clock)];
    match NewChatMessage(None, req.sessionId, AssistantRole, text, Some(clock.assistantAt))
    case Failure(e) => Turn(st.(chats := chats1), Failure(e), Some(prompt))
    case Success(assistant) =>
      var chats2 := Chats.SaveMessage(chats1, assistant, clock.assistantAt).0;
      AssistantRowSaved(st, req, clock, assistant);
      Turn(st.(chats := chats2), Success(Response(req.sessionId, text, clock.respondedAt)), Some(prompt))
  }

  /** The assistant's message, saved after the user's, gets the next key. */
  lemma AssistantRowSaved(st: Store, req: Request, clock: Clock, assistant: ChatMessage)
    requires assistant == MessageData(None, req.sessionId, AssistantRole, assistant.message, Some(clock.assistantAt))
    ensures var chats1 := st.chats + [UserRow(st, req, clock)];
      Chats.SaveMessage(chats1, assistant, clock.assistantAt).0 ==
        chats1 + [AssistantRow(st, req, clock, assistant.message)]
  {
    Chats.NextIdAfterInsert(st.chats, UserRow(st, req, clock));
  }

  /** The user's row, and the assistant's after it, keep a well-formed table
      well-formed. */
  lemma UserRowWellFormed(st: Store, req: Request, clock: Clock)
    requires Accepted(req)
    ensures Chats.WellFormed(st.chats) ==> Chats.WellFormed(st.chats + [UserRow(st, req, clock)])
    ensures forall text :: Chats.WellFormed(st.chats) && !Text.AllSpace(text) ==>
      Chats.WellFormed(st.chats + [UserRow(st, req, clock), AssistantRow(st, req, clock, text)])
  {
  }

  /** Once the user's row is saved, the session's recent messages are not
      empty. */
  lemma UserRowIsRead(st: Store, req: Request, clock: Clock)
    requires Accepted(req)
    requires Chats.GetRecentMessages(st.chats + [UserRow(st, req, clock)], req.sessionId, RecentWindow).Success?
    ensures Chats.GetRecentMessages(st.chats + [UserRow(st, req, clock)], req.sessionId, RecentWindow).value != []
  {
    var row := UserRow(st, req, clock);
    Chats.SessionRowsAppend(st.chats, row, req.sessionId);
  }

  /** `get_session_history(session_id, limit=10)`: the repository's
      chronological list for the session, which holds its newest messages:
      no row of the session that was left out is newer than one returned. */
  function GetSessionHistory(st: Store, sessionId: string, limit: int := DefaultHistoryLimit)
    : (r: Result<seq<ChatMessage>, Error>)
    ensures Chats.WellFormed(st.chats) ==> r.Success?
    ensures r.Success? ==>
      && |r.value| == Chats.WindowSize(limit, |Chats.SessionRows(st.chats, sessionId)|)
      && (forall k :: 0 <= k < |r.value| ==> r.value[k].sessionId == sessionId && r.value[k].timestamp.Some?)
      && (forall k, l :: 0 <= k < l < |r.value| ==>
            r.value[k].timestamp.value <= r.value[l].timestamp.value)
    ensures r.Success? ==> Repositories.RecentMessages(st.chats, sessionId, limit, r.value)
  {
    var r := Chats.GetSessionHistory(st.chats, sessionId, limit);
    if r.Success? then
      Repositories.RecentMessagesMeetInterface(st.chats, sessionId, limit);
      r
    else
      r
  }

  /** `delete_session_history(session_id)`: the repository's delete, whose
      count is returned unchanged. */
  function DeleteSessionHistory(st: Store, sessionId: string): (r: (Store, nat))
    ensures r.1 == |Chats.SessionRows(st.chats, sessionId)|
    ensures Chats.SessionRows(r.0.chats, sessionId) == []
    ensures r.0.products == st.products
    ensures forall other :: other != sessionId ==>
      Chats.SessionRows(r.0.chats, other) == Chats.SessionRows(st.chats, other)
  {
    var (chats, n) := Chats.DeleteSessionHistory(st.chats, sessionId);
    Chats.DeleteKeepsOtherSessions(st.chats, sessionId);
    (st.(chats := chats), n)
  }

  /* ------------------------------------------------------- turn properties */

  /** The context handed to the generator holds between one and six messages,
      all of the request's session, and the prompt renders all of them. */
  lemma ContextWindow(st: Store, req: Request, clock: Clock, gen: Generator)
    requires ProcessUserMessage(st, req, clock, gen).prompt.Some?
    ensures var c := ProcessUserMessage(st, req, clock, gen).prompt.value.context;
      && 0 < |c.messages| <= RecentWindow
      && (forall k :: 0 <= k < |c.messages| ==> c.messages[k].sessionId == req.sessionId)
      && RecentMessages(c) == c.messages
  {
    var r := ProcessUserMessage(st, req, clock, gen);
    assert Accepted(req);
    assert r == Converse(st, req, clock, gen);
    UserRowIsRead(st, req, clock);
  }

  /** The message the user's request became, as saved. */
  function SavedUserMessage(st: Store, req: Request, clock: Clock): MessageData {
    Chats.RowFields(UserRow(st, req, clock))
  }

  /** If no earlier message of the session is timestamped after the user's
      new one, the context handed to the generator ends with that message:
      the generator always sees the request it answers. */
  lemma ContextEndsWithRequest(st: Store, req: Request, clock: Clock, gen: Generator)
    requires ProcessUserMessage(st, req, clock, gen).prompt.Some?
    requires forall i :: 0 <= i < |st.chats| && st.chats[i].sessionId == req.sessionId ==>
      st.chats[i].timestamp <= clock.userAt
    ensures var ms := ProcessUserMessage(st, req, clock, gen).prompt.value.context.messages;
      |ms| > 0 && ms[|ms| - 1] == SavedUserMessage(st, req, clock)
  {
    var r := ProcessUserMessage(st, req, clock, gen);
    assert Accepted(req);
    assert r == Converse(st, req, clock, gen);
    RecentEndsWithUser(st, req, clock);
  }

  /** The recent messages read right after the user's row was saved end with
      that row, when no earlier row of the session is newer. */
  lemma RecentEndsWithUser(st: Store, req: Request, clock: Clock)
    requires Accepted(req)
    requires forall i :: 0 <= i < |st.chats| && st.chats[i].sessionId == req.sessionId ==>
      st.chats[i].timestamp <= clock.userAt
    requires Chats.GetRecentMessages(st.chats + [UserRow(st, req, clock)], req.sessionId, RecentWindow).Success?
    ensures var ms := Chats.GetRecentMessages(st.chats + [UserRow(st, req, clock)], req.sessionId, RecentWindow).value;
      |ms| > 0 && ms[|ms| - 1] == SavedUserMessage(st, req, clock)
  {
    Chats.NewestEndsHistory(st.chats, UserRow(st, req, clock), RecentWindow);
  }

  /** The message the assistant's reply became, as saved. */
  function SavedReply(st: Store, req: Request, clock: Clock, text: string): MessageData {
    Chats.RowFields(AssistantRow(st, req, clock, text))
  }

  /** The saved messages carry consecutive fresh ids, the session, the roles,
      the texts and the clock readings of the turn. */
  lemma SavedMessages(st: Store, req: Request, clock: Clock, text: string)
    ensures var n := Chats.NextId(st.chats);
      && SavedUserMessage(st, req, clock)
         == MessageData(Some(n), req.sessionId, UserRole, req.message, Some(clock.userAt))
      && SavedReply(st, req, clock, text)
         == MessageData(Some(n + 1), req.sessionId, AssistantRole, text, Some(clock.assistantAt))
      && n !in Chats.Ids(st.chats)
  {
  }

  /** The first successful turn of a new session leaves exactly the user's
      message and then the assistant's reply in its history, provided the
      clock does not run backwards within the turn; deleting the session
      afterwards reports those two messages. */
  lemma FirstTurnHistory(st: Store, req: Request, clock: Clock, gen: Generator)
    requires Chats.SessionRows(st.chats, req.sessionId) == []
    requires clock.userAt <= clock.assistantAt
    requires ProcessUserMessage(st, req, clock, gen).outcome.Success?
    ensures var r := ProcessUserMessage(st, req, clock, gen);
      && GetSessionHistory(r.store, req.sessionId) == Success([
           SavedUserMessage(st, req, clock), SavedReply(st, req, clock, r.outcome.value.response)])
      && DeleteSessionHistory(r.store, req.sessionId).1 == 2
  {
    var r := ProcessUserMessage(st, req, clock, gen);
    assert Accepted(req);
    assert r == Converse(st, req, clock, gen);
    var text := r.outcome.value.response;
    assert r.store.chats == st.chats + [UserRow(st, req, clock), AssistantRow(st, req, clock, text)];
    FirstPairRead(st, req, clock, text);
  }

  /** The table-level half of `FirstTurnHistory`. */
  lemma FirstPairRead(st: Store, req: Request, clock: Clock, text: string)
    requires Accepted(req) && !Text.AllSpace(text)
    requires Chats.SessionRows(st.chats, req.sessionId) == []
    requires clock.userAt <= clock.assistantAt
    ensures var chats := st.chats + [UserRow(st, req, clock), AssistantRow(st, req, clock, text)];
      && Chats.GetSessionHistory(chats, req.sessionId, DefaultHistoryLimit)
         == Success([SavedUserMessage(st, req, clock), SavedReply(st, req, clock, text)])
      && |Chats.SessionRows(chats, req.sessionId)| == 2
  {
    var u := UserRow(st, req, clock);
    var a := AssistantRow(st, req, clock, text);
    Chats.FirstPairHistory(st.chats, req.sessionId, u, a, DefaultHistoryLimit);
    Chats.PairHistoryRead(st.chats + [u, a], req.sessionId, DefaultHistoryLimit, u, a);
  }

  /** A failing generator ends the turn with its failure, after the user's
      row was saved and before any assistant row; a blank reply ends it with
      the assistant message's construction error, likewise. */
  lemma GeneratorFailureKeepsUserRow(st: Store, req: Request, clock: Clock, gen: Generator)
    requires ProcessUserMessage(st, req, clock, gen).prompt.Some?
    ensures var r := ProcessUserMessage(st, req, clock, gen);
      var reply := Reply(r, gen).value;
      && (reply.Failure? ==>
            r.outcome == Failure(GenerationFailed(reply.error))
            && r.store.chats == st.chats + [UserRow(st, req, clock)])
      && (reply.Success? && Text.AllSpace(reply.value) ==>
            r.outcome == Failure(BlankMessage)
            && r.store.chats == st.chats + [UserRow(st, req, clock)])
      && (reply.Success? && !Text.AllSpace(reply.value) ==>
            r.outcome == Success(Response(req.sessionId, reply.value, clock.respondedAt)))
  {
    var r := ProcessUserMessage(st, req, clock, gen);
    assert Accepted(req);
    assert r == Converse(st, req, clock, gen);
  }
}
