/** The repository interfaces `IProductRepository` and `IChatRepository`.
    Each abstract method's documented promise is a predicate relating the
    table before the call, the arguments, the result and the table after;
    each lemma shows that the SQL repository meets the promise whenever its
    call succeeds (a call fails only on a row that no longer validates, or on
    the store's key collision). */
module Repositories {
  import opened Wrappers
  import opened Entities
  import Chats = ChatRepository
  import Products = ProductRepository

  /* ------------------------------------------------------ IProductRepository */

  /** `get_all`: every registered product, and only those, each once and as
      stored. */
  predicate AllProducts(t: Products.ProductTable, ps: seq<Product>) {
    && (forall k :: 0 <= k < |ps| ==>
          && ps[k].id.Some? && ps[k].id.value in t
          && ps[k] == Products.RowFields(ps[k].id.value, t[ps[k].id.value]))
    && (forall id :: id in t ==> exists k :: 0 <= k < |ps| && ps[k].id == Some(id))
    && (forall k, l :: 0 <= k < l < |ps| ==> ps[k].id != ps[l].id)
    && |ps| == |t|
  }

  /** `get_by_id`: the product stored with that id, or None when there is
      none. */
  predicate FoundById(t: Products.ProductTable, id: int, r: Option<Product>) {
    && (r.None? <==> id !in t)
    && (r.Some? ==> r.value.id == Some(id) && r.value == Products.RowFields(id, t[id]))
  }

  /** `get_by_brand` / `get_by_category`: the products with that attribute,
      and only those, each once and as stored. */
  predicate ProductsWhere(t: Products.ProductTable, c: Products.Criterion, ps: seq<Product>) {
    && (forall k :: 0 <= k < |ps| ==>
          && ps[k].id.Some? && ps[k].id.value in t && Products.Matches(t[ps[k].id.value], c)
          && ps[k] == Products.RowFields(ps[k].id.value, t[ps[k].id.value]))
    && (forall id :: id in t && Products.Matches(t[id], c) ==>
          exists k :: 0 <= k < |ps| && ps[k].id == Some(id))
    && (forall k, l :: 0 <= k < l < |ps| ==> ps[k].id != ps[l].id)
  }

  /** `save`: the product is stored under the returned product's id, which
      is a fresh one when the product was new; the stored row reads back as
      the returned product, and no other product changes. */
  predicate Saved(t: Products.ProductTable, t': Products.ProductTable, p: Product, r: Product) {
    && r.id.Some?
    && (p.id.Some? ==> r.id == p.id)
    && (p.id.None? ==> r.id.value !in t)
    && r.id.value in t'
    && r == p.(id := r.id)
    && Products.RowFields(r.id.value, t'[r.id.value]) == r
    && forall j :: j in t && j != r.id.value ==> j in t' && t'[j] == t[j]
  }

  /** `delete`: true when a product was removed, false when none existed. */
  predicate Deleted(t: Products.ProductTable, id: int, t': Products.ProductTable, removed: bool) {
    && (removed <==> id in t)
    && id !in t'
  }

  lemma GetAllMeetsInterface(t: Products.ProductTable)
    requires Products.GetAll(t).Success?
    ensures AllProducts(t, Products.GetAll(t).value)
  {
    var ps := Products.GetAll(t).value;
    AscendingDistinct(ps);
  }

  /** Strictly ascending ids are pairwise different. */
  lemma AscendingDistinct(ps: seq<Product>)
    requires forall k :: 0 <= k < |ps| ==> ps[k].id.Some?
    requires Products.Ascending(ps)
    ensures forall k, l :: 0 <= k < l < |ps| ==> ps[k].id != ps[l].id
  {
    forall k, l | 0 <= k < l < |ps|
      ensures ps[k].id != ps[l].id
    {
      assert ps[k].id.value < ps[l].id.value;
    }
  }

  lemma GetByIdMeetsInterface(t: Products.ProductTable, id: int)
    requires Products.GetById(t, id).Success?
    ensures FoundById(t, id, Products.GetById(t, id).value)
  {
  }

  lemma GetByAttributeMeetsInterface(t: Products.ProductTable, brand: string, category: string)
    requires Products.GetByBrand(t, brand).Success? && Products.GetByCategory(t, category).Success?
    ensures ProductsWhere(t, Products.BrandIs(brand), Products.GetByBrand(t, brand).value)
    ensures ProductsWhere(t, Products.CategoryIs(category), Products.GetByCategory(t, category).value)
  {
  }

  lemma SaveMeetsInterface(t: Products.ProductTable, p: Product)
    requires Products.Save(t, p).1.Success?
    ensures Saved(t, Products.Save(t, p).0, p, Products.Save(t, p).1.value)
  {
    var (t', r) := Products.Save(t, p);
    var k := r.value.id.value;
    assert Products.ToEntity(k, Products.ToRow(p)) == Success(p.(id := Some(k)));
  }

  lemma DeleteMeetsInterface(t: Products.ProductTable, id: int)
    ensures Deleted(t, id, Products.Delete(t, id).0, Products.Delete(t, id).1)
  {
  }

  /* --------------------------------------------------------- IChatRepository */

  /** `save_message`: the saved message carries an assigned id and is now in
      the history table. */
  predicate MessageSaved(t': Chats.ChatTable, m: ChatMessage, r: ChatMessage) {
    && r.id.Some?
    && r.sessionId == m.sessionId && r.role == m.role && r.message == m.message
    && exists i :: 0 <= i < |t'| && Chats.RowFields(t'[i]) == r
  }

  /** Messages in chronological order. */
  predicate Chronological(ms: seq<ChatMessage>) {
    forall k, l :: 0 <= k < l < |ms| ==>
      ms[k].timestamp.Some? && ms[l].timestamp.Some? && ms[k].timestamp.value <= ms[l].timestamp.value
  }

  /** The message is the reading of a stored row of session `s`. */
  predicate StoredIn(t: Chats.ChatTable, s: string, m: ChatMessage) {
    exists i :: 0 <= i < |t| && t[i].sessionId == s && Chats.RowFields(t[i]) == m
  }

  /** `get_session_history`: stored messages of the session, each at most
      once (when the keys are unique), chronologically; all of them when no
      limit is given (a negative one), otherwise as many as the limit
      allows. */
  predicate SessionHistory(t: Chats.ChatTable, s: string, limit: int, ms: seq<ChatMessage>) {
    && Chronological(ms)
    && (forall k :: 0 <= k < |ms| ==> ms[k].sessionId == s)
    && (forall k :: 0 <= k < |ms| ==> StoredIn(t, s, ms[k]))
    && (Chats.UniqueIds(t) ==> forall k, l :: 0 <= k < l < |ms| ==> ms[k] != ms[l])
    && |ms| == Chats.WindowSize(limit, |Chats.SessionRows(t, s)|)
  }

  /** `get_recent_messages`: the last `count` of the session's messages (all
      of them if there are fewer), chronologically: no message of the session
      left out is newer than one returned. */
  predicate RecentMessages(t: Chats.ChatTable, s: string, count: int, ms: seq<ChatMessage>) {
    && SessionHistory(t, s, count, ms)
    && forall i, k :: 0 <= i < |t| && t[i].sessionId == s && Chats.RowFields(t[i]) !in ms && 0 <= k < |ms| ==>
         ms[k].timestamp.Some? && t[i].timestamp <= ms[k].timestamp.value
  }

  /** `delete_session_history`: the number of messages removed. */
  predicate SessionDeleted(t: Chats.ChatTable, s: string, t': Chats.ChatTable, n: int) {
    && n == |t| - |t'|
    && Chats.SessionRows(t', s) == []
  }

  lemma SaveMessageMeetsInterface(t: Chats.ChatTable, m: ChatMessage, now: int)
    requires Chats.SaveMessage(t, m, now).1.Success?
    ensures MessageSaved(Chats.SaveMessage(t, m, now).0, m, Chats.SaveMessage(t, m, now).1.value)
  {
    var (t', r) := Chats.SaveMessage(t, m, now);
    assert Chats.RowFields(t'[|t|]) == r.value;
  }

  lemma SessionHistoryMeetsInterface(t: Chats.ChatTable, s: string, limit: int)
    requires Chats.GetSessionHistory(t, s, limit).Success?
    ensures SessionHistory(t, s, limit, Chats.GetSessionHistory(t, s, limit).value)
  {
    var ms := Chats.GetSessionHistory(t, s, limit).value;
    HistoryFromTable(t, s, limit, ms);
    if Chats.UniqueIds(t) {
      HistoryNoRepeat(t, s, limit, ms);
    }
  }

  /** Every message of the history is the reading of a stored row of the
      session. */
  lemma HistoryFromTable(t: Chats.ChatTable, s: string, limit: int, ms: seq<ChatMessage>)
    requires Chats.GetSessionHistory(t, s, limit) == Success(ms)
    ensures forall k :: 0 <= k < |ms| ==> StoredIn(t, s, ms[k])
  {
    var h := Chats.HistoryEntries(t, s, limit);
    forall k | 0 <= k < |ms|
      ensures StoredIn(t, s, ms[k])
    {
      var i := h[k].pos;
      assert ms[k] == Chats.RowFields(h[k].row);
      assert 0 <= i < |t| && t[i] == h[k].row && t[i].sessionId == s;
    }
  }

  /** With unique keys, the history holds no message twice. */
  lemma HistoryNoRepeat(t: Chats.ChatTable, s: string, limit: int, ms: seq<ChatMessage>)
    requires Chats.GetSessionHistory(t, s, limit) == Success(ms)
    requires Chats.UniqueIds(t)
    ensures forall k, l :: 0 <= k < l < |ms| ==> ms[k] != ms[l]
  {
    var h := Chats.HistoryEntries(t, s, limit);
    Chats.HistoryDistinct(t, s, limit);
    forall k, l | 0 <= k < l < |ms|
      ensures ms[k] != ms[l]
    {
      assert ms[k] == Chats.RowFields(h[k].row) && ms[l] == Chats.RowFields(h[l].row);
      assert t[h[k].pos] == h[k].row && t[h[l].pos] == h[l].row;
      assert h[k] != h[l];
    }
  }

  lemma RecentMessagesMeetInterface(t: Chats.ChatTable, s: string, count: int)
    requires Chats.GetRecentMessages(t, s, count).Success?
    ensures RecentMessages(t, s, count, Chats.GetRecentMessages(t, s, count).value)
  {
    var ms := Chats.GetRecentMessages(t, s, count).value;
    var h := Chats.HistoryEntries(t, s, count);
    assert SessionHistory(t, s, count, ms) by {
      SessionHistoryMeetsInterface(t, s, count);
    }
    forall i | 0 <= i < |t| && t[i].sessionId == s && Chats.RowFields(t[i]) !in ms
      ensures forall k :: 0 <= k < |ms| ==> ms[k].timestamp.Some? && t[i].timestamp <= ms[k].timestamp.value
    {
      LeftOutIsOlder(t, s, count, i);
    }
  }

  /** A row of the session whose message was not returned is no newer than
      any message that was. */
  lemma LeftOutIsOlder(t: Chats.ChatTable, s: string, count: int, i: int)
    requires Chats.GetRecentMessages(t, s, count).Success?
    requires 0 <= i < |t| && t[i].sessionId == s
    requires Chats.RowFields(t[i]) !in Chats.GetRecentMessages(t, s, count).value
    ensures var ms := Chats.GetRecentMessages(t, s, count).value;
      forall k :: 0 <= k < |ms| ==> ms[k].timestamp.Some? && t[i].timestamp <= ms[k].timestamp.value
  {
    var ms := Chats.GetRecentMessages(t, s, count).value;
    var h := Chats.HistoryEntries(t, s, count);
    var e := Chats.Entry(i, t[i]);
    assert e in Chats.SessionEntries(t, s);
    forall j | 0 <= j < |h|
      ensures h[j] != e
    {
      assert ms[j] == Chats.RowFields(h[j].row);
    }
    assert e !in h;
    forall k | 0 <= k < |ms|
      ensures ms[k].timestamp.Some? && t[i].timestamp <= ms[k].timestamp.value
    {
      assert Chats.NotOlder(h[k], e);
      assert ms[k] == Chats.RowFields(h[k].row);
    }
  }

  lemma DeleteSessionMeetsInterface(t: Chats.ChatTable, s: string)
    ensures SessionDeleted(t, s, Chats.DeleteSessionHistory(t, s).0, Chats.DeleteSessionHistory(t, s).1)
  {
  }
}
