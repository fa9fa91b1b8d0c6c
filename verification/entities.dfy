/** The domain entities: products with their stock rules, chat messages and
    the conversational context handed to the text generator. Python's
    "validate in `__post_init__`, raise `ValueError`" becomes a smart
    constructor returning a `Result`, and the validated classes become subset
    types, so an invalid entity cannot be written down. */
module Entities {
  import opened Wrappers
  import Text

  /** Everything the core can raise. The first eight are the `ValueError`s of
      the entities; `DuplicateId` is the store's integrity error for an
      explicit primary key already in use; `GenerationFailed` is whatever the
      text generator raised. */
  datatype Error =
    | InvalidRole
    | BlankSessionId
    | BlankMessage
    | BlankName
    | NonPositivePrice
    | NegativeStock
    | NonPositiveQuantity
    | InsufficientStock
    | DuplicateId(id: int)
    | GenerationFailed(detail: string)

  /* ---------------------------------------------------------------- Product */

  /** The fields of a product. `price` is a Python float; only its comparison
      with zero matters, so it is a `real`. */
  datatype ProductData = ProductData(
    id: Option<int>,
    name: string,
    brand: string,
    category: string,
    size: string,
    color: string,
    price: real,
    stock: int,
    description: string)
  {
    /** The construction-time invariant. */
    predicate Valid() {
      !Text.AllSpace(name) && price > 0.0 && stock >= 0
    }
  }

  /** A product that passed its construction checks. */
  type Product = p: ProductData | p.Valid()
    witness (assert !Text.IsSpace("p"[0]); ProductData(None, "p", "", "", "", "", 1.0, 0, ""))

  /** `Product(...)`: the name must not be blank, the price must be positive
      and the stock non-negative; the checks run in that order. The blank test
      is written as "whitespace only", which `Text.IsBlank` proves to be the
      source's `not s or not s.strip()`. */
  function NewProduct(id: Option<int>, name: string, brand: string, category: string,
                      size: string, color: string, price: real, stock: int,
                      description: string): (r: Result<Product, Error>)
    ensures r.Success? <==> (!Text.AllSpace(name) && price > 0.0 && stock >= 0)
    ensures r.Success? ==>
      r.value == ProductData(id, name, brand, category, size, color, price, stock, description)
    ensures Text.AllSpace(name) ==> r == Failure(BlankName)
    ensures !Text.AllSpace(name) && price <= 0.0 ==> r == Failure(NonPositivePrice)
    ensures !Text.AllSpace(name) && price > 0.0 && stock < 0 ==> r == Failure(NegativeStock)
  {
    if Text.AllSpace(name) then Failure(BlankName)
    else if price <= 0.0 then Failure(NonPositivePrice)
    else if stock < 0 then Failure(NegativeStock)
    else Success(ProductData(id, name, brand, category, size, color, price, stock, description))
  }

  /** `is_available()`: exactly when one unit can be taken out of stock. */
  predicate IsAvailable(p: Product)
    ensures IsAvailable(p) <==> ReduceStock(p, 1).Success?
  {
    p.stock > 0
  }

  /** `reduce_stock(quantity)`: rejects a non-positive quantity, then a
      quantity above the stock ("Stock insuficiente"); otherwise takes the
      quantity off the stock and touches nothing else. */
  function ReduceStock(p: Product, quantity: int): (r: Result<Product, Error>)
    ensures quantity <= 0 ==> r == Failure(NonPositiveQuantity)
    ensures 0 < quantity && quantity > p.stock ==> r == Failure(InsufficientStock)
    ensures r.Success? <==> 0 < quantity <= p.stock
    ensures r.Success? ==> r.value == p.(stock := p.stock - quantity) && r.value.stock >= 0
  {
    if quantity <= 0 then Failure(NonPositiveQuantity)
    else if quantity > p.stock then Failure(InsufficientStock)
    else Success(p.(stock := p.stock - quantity))
  }

  /** `increase_stock(quantity)`: rejects a non-positive quantity, otherwise
      adds it to the stock and touches nothing else. */
  function IncreaseStock(p: Product, quantity: int): (r: Result<Product, Error>)
    ensures quantity <= 0 ==> r == Failure(NonPositiveQuantity)
    ensures r.Success? <==> quantity > 0
    ensures r.Success? ==> r.value == p.(stock := p.stock + quantity) && r.value.stock > p.stock
  {
    if quantity <= 0 then Failure(NonPositiveQuantity)
    else Success(p.(stock := p.stock + quantity))
  }

  /** Taking `quantity` off and putting it back restores the product. */
  lemma ReduceThenIncrease(p: Product, quantity: int)
    requires ReduceStock(p, quantity).Success?
    ensures IncreaseStock(ReduceStock(p, quantity).value, quantity) == Success(p)
  {
  }

  /** Putting `quantity` on and taking it off again restores the product. */
  lemma IncreaseThenReduce(p: Product, quantity: int)
    requires IncreaseStock(p, quantity).Success?
    ensures ReduceStock(IncreaseStock(p, quantity).value, quantity) == Success(p)
  {
  }

  /* ------------------------------------------------------------ ChatMessage */

  const UserRole: string := "user"
  const AssistantRole: string := "assistant"

  /** The fields of a chat message. The timestamp is optional because the
      store fills in a missing one when the message is saved. */
  datatype MessageData = MessageData(
    id: Option<int>,
    sessionId: string,
    role: string,
    message: string,
    timestamp: Option<int>)
  {
    /** The construction-time invariant. */
    predicate Valid() {
      (role == UserRole || role == AssistantRole)
      && !Text.AllSpace(sessionId)
      && !Text.AllSpace(message)
    }
  }

  /** A message that passed its construction checks. */
  type ChatMessage = m: MessageData | m.Valid()
    witness (assert !Text.IsSpace("s"[0]) && !Text.IsSpace("m"[0]);
             MessageData(None, "s", "user", "m", None))

  /** `ChatMessage(...)`: the role must be "user" or "assistant", then the
      session id and the text must not be blank (whitespace only, as
      `Text.IsBlank` characterises the source's test); the checks run in that
      order. */
  function NewChatMessage(id: Option<int>, sessionId: string, role: string,
                          message: string, timestamp: Option<int>): (r: Result<ChatMessage, Error>)
    ensures r.Success? <==>
      (role == UserRole || role == AssistantRole)
      && !Text.AllSpace(sessionId) && !Text.AllSpace(message)
    ensures r.Success? ==> r.value == MessageData(id, sessionId, role, message, timestamp)
    ensures role != UserRole && role != AssistantRole ==> r == Failure(InvalidRole)
    ensures (role == UserRole || role == AssistantRole) && Text.AllSpace(sessionId) ==>
      r == Failure(BlankSessionId)
    ensures ((role == UserRole || role == AssistantRole) && !Text.AllSpace(sessionId)
             && Text.AllSpace(message)) ==> r == Failure(BlankMessage)
  {
    if role != UserRole && role != AssistantRole then Failure(InvalidRole)
    else if Text.AllSpace(sessionId) then Failure(BlankSessionId)
    else if Text.AllSpace(message) then Failure(BlankMessage)
    else Success(MessageData(id, sessionId, role, message, timestamp))
  }

  /** `is_from_user()`: a valid message is the user's exactly when it is not
      the assistant's. */
  predicate IsFromUser(m: ChatMessage)
    ensures IsFromUser(m) <==> m.role != AssistantRole
  {
    m.role == UserRole
  }

  /** `is_from_assistant()`: exactly the valid messages that are not the
      user's, so every message comes from one side of the conversation. */
  predicate IsFromAssistant(m: ChatMessage)
    ensures IsFromAssistant(m) <==> !IsFromUser(m)
  {
    m.role == AssistantRole
  }

  /* ------------------------------------------------------------ ChatContext */

  /** `ChatContext.max_messages`'s default. */
  const DefaultMaxMessages: int := 6

  /** The messages of a conversation (oldest first) and the window size. */
  datatype ChatContext = ChatContext(messages: seq<ChatMessage>, maxMessages: int)

  function Min(a: int, b: int): int {
    if a <= b then a else b
  }

  /** Python's `s[start:]`: a negative start counts from the end and is
      clamped at 0, a start beyond the end gives the empty list. */
  function PySuffix<T>(s: seq<T>, start: int): (r: seq<T>)
    ensures |r| <= |s| && r == s[|s| - |r|..]
    ensures start >= 0 ==> |r| + Min(start, |s|) == |s|
    ensures start < 0 ==> |r| == Min(-start, |s|)
  {
    var from := if start < 0 then (if start + |s| < 0 then 0 else start + |s|)
                else Min(start, |s|);
    s[from..]
  }

  /** `get_recent_messages()`: `messages[-max_messages:]`. For a positive
      window this is the last `max_messages` messages (all of them if there
      are fewer); a window of 0 is Python's `[-0:]`, which is the whole list;
      a negative window `-k` drops the first `k` messages. */
  function RecentMessages(c: ChatContext): (r: seq<ChatMessage>)
    ensures c.maxMessages > 0 ==>
      |r| == Min(c.maxMessages, |c.messages|) && r == c.messages[|c.messages| - |r|..]
    ensures c.maxMessages == 0 ==> r == c.messages
    ensures c.maxMessages < 0 ==> r == c.messages[Min(-c.maxMessages, |c.messages|)..]
  {
    PySuffix(c.messages, -c.maxMessages)
  }

  /** The tag `format_for_prompt` writes for a role: "user" for the user,
      "assistant" for anything else. */
  function RoleLabel(role: string): (r: string)
    ensures r == UserRole || r == AssistantRole
    ensures (role == UserRole || role == AssistantRole) ==> r == role
  {
    if role == UserRole then UserRole else AssistantRole
  }

  /** One prompt line: `f"{role}: {msg.message}"`. */
  function PromptLine(m: ChatMessage): string {
    RoleLabel(m.role) + ": " + m.message
  }

  /** The prompt lines of a list of messages, in the same order. */
  function PromptLines(ms: seq<ChatMessage>): (r: seq<string>)
    ensures |r| == |ms|
    ensures forall i :: 0 <= i < |ms| ==> r[i] == PromptLine(ms[i])
  {
    if |ms| == 0 then [] else [PromptLine(ms[0])] + PromptLines(ms[1..])
  }

  /** `format_for_prompt()`: the windowed messages, one line each, joined by
      newlines. */
  function FormatForPrompt(c: ChatContext): (r: string)
    ensures r == "" <==> RecentMessages(c) == []
  {
    Text.Join(PromptLines(RecentMessages(c)), '\n')
  }

  /** A prompt line has a newline only if the message text has one. */
  lemma PromptLineNoNewline(m: ChatMessage)
    requires '\n' !in m.message
    ensures '\n' !in PromptLine(m)
  {
    var tag := RoleLabel(m.role);
    assert '\n' !in tag;
    var line := PromptLine(m);
    forall i | 0 <= i < |line|
      ensures line[i] != '\n'
    {
      if i >= |tag| + 2 {
        assert line[i] == m.message[i - |tag| - 2];
      }
    }
  }

  /** The rendered prompt splits back, line by line, into one
      `"<role>: <message>"` line per windowed message in chronological order,
      each labelled with the message's own role, provided no windowed message
      text contains a newline (older messages may hold any text). */
  lemma FormatForPromptLines(c: ChatContext)
    requires RecentMessages(c) != []
    requires forall i :: 0 <= i < |RecentMessages(c)| ==> '\n' !in RecentMessages(c)[i].message
    ensures var w := RecentMessages(c);
      var lines := Text.Split(FormatForPrompt(c), '\n');
      && |lines| == |w|
      && forall i :: 0 <= i < |w| ==> lines[i] == w[i].role + ": " + w[i].message
  {
    var w := RecentMessages(c);
    var lines := PromptLines(w);
    forall i | 0 <= i < |lines|
      ensures '\n' !in lines[i]
    {
      PromptLineNoNewline(w[i]);
    }
    assert Text.Split(Text.Join(lines, '\n'), '\n') == lines;
  }

  /** With the default window, a conversation of any length is rendered from
      its last six messages at most, and every tag is a valid role. */
  lemma DefaultWindowBound(ms: seq<ChatMessage>)
    ensures var w := RecentMessages(ChatContext(ms, DefaultMaxMessages));
      && |w| == Min(6, |ms|)
      && w == ms[|ms| - |w|..]
      && forall i :: 0 <= i < |w| ==> IsFromUser(w[i]) || IsFromAssistant(w[i])
  {
  }
}
