/** The SQL chat repository over an abstract `chat_memory` table. The table is
    the sequence of its rows in insertion order; the query
    `ORDER BY timestamp DESC LIMIT n` followed by `reverse()` is modelled step
    by step. SQL leaves the order of rows with equal timestamps open; the model
    breaks such ties by insertion order, the later row counting as the newer. */
module ChatRepository {
  import opened Wrappers
  import opened Entities

  /** One row of the `chat_memory` table (`ChatMemoryModel`). */
  datatype Row = Row(id: int, sessionId: string, role: string, message: string, timestamp: int)

  /** The table, oldest insertion first. */
  type ChatTable = seq<Row>

  /* ------------------------------------------------- ORM <-> entity mapping */

  /** The entity a row would become, before validation. */
  function RowFields(row: Row): MessageData {
    MessageData(Some(row.id), row.sessionId, row.role, row.message, Some(row.timestamp))
  }

  /** `_model_to_entity`: copies the five columns into a `ChatMessage`, whose
      constructor re-validates them. */
  function ToEntity(row: Row): (r: Result<ChatMessage, Error>)
    ensures r.Success? <==> RowFields(row).Valid()
    ensures r.Success? ==>
      && r.value.id == Some(row.id) && r.value.sessionId == row.sessionId
      && r.value.role == row.role && r.value.message == row.message
      && r.value.timestamp == Some(row.timestamp)
  {
    NewChatMessage(Some(row.id), row.sessionId, row.role, row.message, Some(row.timestamp))
  }

  /** `_entity_to_model`: copies the fields, defaulting a missing timestamp to
      `now`; `id` is the primary key the row is stored under. Reading the row
      back gives the message, carrying that key and the stored timestamp. */
  function ToRow(m: ChatMessage, id: int, now: int): (r: Row)
    ensures r.id == id
    ensures m.timestamp.Some? ==> r.timestamp == m.timestamp.value
    ensures m.timestamp.None? ==> r.timestamp == now
    ensures ToEntity(r) == Success(m.(id := Some(id), timestamp := Some(r.timestamp)))
  {
    Row(id, m.sessionId, m.role, m.message, m.timestamp.GetOr(now))
  }

  /** Reading a row back and writing it again gives the same row. */
  lemma RowRoundTrip(row: Row, now: int)
    requires ToEntity(row).Success?
    ensures ToRow(ToEntity(row).value, row.id, now) == row
  {
  }

  /** Every row of the table reads back as a valid `ChatMessage`. */
  predicate WellFormed(t: ChatTable) {
    forall i :: 0 <= i < |t| ==> RowFields(t[i]).Valid()
  }

  /** `_model_to_entity` over a list of rows: fails exactly when some row
      does not validate; on success, one entity per row, in order. */
  function ToEntities(rows: seq<Row>): (r: Result<seq<ChatMessage>, Error>)
    ensures r.Success? <==> forall i :: 0 <= i < |rows| ==> RowFields(rows[i]).Valid()
    ensures r.Success? ==>
      |r.value| == |rows| && forall i :: 0 <= i < |rows| ==> r.value[i] == RowFields(rows[i])
  {
    if |rows| == 0 then Success([])
    else
      match ToEntity(rows[0])
      case Failure(e) => Failure(e)
      case Success(m) =>
        match ToEntities(rows[1..])
        case Failure(e) =>
          assert !RowFields(rows[1..][FirstInvalid(rows[1..])]).Valid();
          Failure(e)
        case Success(ms) =>
          ConsEntities(rows, m, ms);
          Success([m] + ms)
  }

  /** The position of a row that does not validate. */
  function FirstInvalid(rows: seq<Row>): (k: nat)
    requires exists i :: 0 <= i < |rows| && !RowFields(rows[i]).Valid()
    ensures k < |rows| && !RowFields(rows[k]).Valid()
  {
    if !RowFields(rows[0]).Valid() then 0
    else
      assert rows[1..] != [] && exists i :: 0 <= i < |rows[1..]| && !RowFields(rows[1..][i]).Valid() by {
        var i :| 0 <= i < |rows| && !RowFields(rows[i]).Valid();
        assert rows[i] == rows[1..][i - 1];
      }
      1 + FirstInvalid(rows[1..])
  }

  /** The pointwise contract of `ToEntities` carries over to one more row. */
  lemma ConsEntities(rows: seq<Row>, m: ChatMessage, ms: seq<ChatMessage>)
    requires |rows| > 0 && m == RowFields(rows[0])
    requires |ms| == |rows| - 1
    requires forall i :: 0 <= i < |ms| ==> ms[i] == RowFields(rows[1..][i])
    ensures forall i :: 0 <= i < |rows| ==> ([m] + ms)[i] == RowFields(rows[i])
  {
    forall i | 0 < i < |rows|
      ensures ([m] + ms)[i] == RowFields(rows[i])
    {
      assert rows[i] == rows[1..][i - 1];
    }
  }

  /* ----------------------------------------------------------- primary keys */

  /** The primary keys in use. */
  function Ids(t: ChatTable): set<int> {
    set i | 0 <= i < |t| :: t[i].id
  }

  /** No two rows share a primary key. */
  predicate UniqueIds(t: ChatTable) {
    forall i, j :: 0 <= i < j < |t| ==> t[i].id != t[j].id
  }

  /** The key SQLite gives a row inserted without one: one more than the
      largest key in the table, or 1 for an empty table. */
  function NextId(t: ChatTable): (r: int)
    ensures forall i :: 0 <= i < |t| ==> t[i].id < r
    ensures r !in Ids(t)
    ensures |t| == 0 ==> r == 1
    ensures |t| > 0 ==> r - 1 in Ids(t)
  {
    if |t| == 0 then 1
    else if |t| == 1 then t[0].id + 1
    else
      var before := NextId(t[..|t| - 1]);
      assert forall i :: 0 <= i < |t| - 1 ==> t[i] == t[..|t| - 1][i];
      if t[|t| - 1].id + 1 > before then t[|t| - 1].id + 1 else before
  }

  /** A row inserted under the fresh key moves the next fresh key up by one:
      two inserts without ids get consecutive keys. */
  lemma NextIdAfterInsert(t: ChatTable, row: Row)
    requires row.id == NextId(t)
    ensures NextId(t + [row]) == NextId(t) + 1
  {
    assert (t + [row])[..|t|] == t;
  }

  /* ------------------------------------------------------------ save_message */

  /** `save_message(message)`: inserts one row. An explicit id already in use
      is the store's integrity error and writes nothing; otherwise the row gets
      the message's id or a fresh one, and its timestamp or `now`, and the
      stored message is returned. */
  function SaveMessage(t: ChatTable, m: ChatMessage, now: int): (r: (ChatTable, Result<ChatMessage, Error>))
    ensures r.1.Failure? <==> m.id.Some? && m.id.value in Ids(t)
    ensures r.1.Failure? ==> r.0 == t && r.1.error == DuplicateId(m.id.value)
    ensures r.1.Success? ==>
      var saved := r.1.value;
      && saved.id.Some? && saved.id.value !in Ids(t)
      && (m.id.Some? ==> saved.id == m.id)
      && saved.timestamp == Some(m.timestamp.GetOr(now))
      && saved == m.(id := saved.id, timestamp := saved.timestamp)
      && r.0 == t + [Row(saved.id.value, m.sessionId, m.role, m.message, saved.timestamp.value)]
    ensures WellFormed(t) ==> WellFormed(r.0)
    ensures UniqueIds(t) ==> UniqueIds(r.0)
  {
    if m.id.Some? && m.id.value in Ids(t) then (t, Failure(DuplicateId(m.id.value)))
    else
      var row := ToRow(m, m.id.GetOr(NextId(t)), now);
      assert row.id !in Ids(t);
      assert forall i :: 0 <= i < |t| ==> t[i].id in Ids(t);
      (t + [row], ToEntity(row))
  }

  /* ---------------------------------------------------------- session rows */

  /** The rows of session `s`, in insertion order. */
  function SessionRows(t: ChatTable, s: string): (r: seq<Row>)
    ensures |r| <= |t|
    ensures forall k :: 0 <= k < |r| ==> r[k].sessionId == s && r[k] in t
  {
    if |t| == 0 then []
    else
      var before := SessionRows(t[..|t| - 1], s);
      var last := t[|t| - 1];
      assert forall k :: 0 <= k < |before| ==> before[k] in t[..|t| - 1];
      before + (if last.sessionId == s then [last] else [])
  }

  lemma SessionRowsAppend(t: ChatTable, row: Row, s: string)
    ensures SessionRows(t + [row], s) ==
      SessionRows(t, s) + (if row.sessionId == s then [row] else [])
  {
    assert (t + [row])[..|t|] == t;
  }

  /** A row together with its insertion position, the tie-breaker of the
      history order. */
  datatype Entry = Entry(pos: nat, row: Row)

  function Rows(es: seq<Entry>): (r: seq<Row>)
    ensures |r| == |es| && forall k :: 0 <= k < |es| ==> r[k] == es[k].row
  {
    seq(|es|, k requires 0 <= k < |es| => es[k].row)
  }

  /** The rows of session `s` with their positions, in insertion order: the
      `WHERE session_id = s` of every query of the repository. */
  function SessionEntries(t: ChatTable, s: string): (r: seq<Entry>)
    ensures forall k :: 0 <= k < |r| ==>
      r[k].pos < |t| && t[r[k].pos] == r[k].row && r[k].row.sessionId == s
    ensures forall k, l :: 0 <= k < l < |r| ==> r[k].pos < r[l].pos
    ensures forall i :: 0 <= i < |t| && t[i].sessionId == s ==> Entry(i, t[i]) in r
    ensures Rows(r) == SessionRows(t, s)
  {
    if |t| == 0 then []
    else
      var before := SessionEntries(t[..|t| - 1], s);
      var last := t[|t| - 1];
      assert forall i :: 0 <= i < |t| - 1 ==> t[i] == t[..|t| - 1][i];
      var r := before + (if last.sessionId == s then [Entry(|t| - 1, last)] else []);
      assert Rows(r) == Rows(before) + (if last.sessionId == s then [last] else []);
      r
  }

  /* ---------------------------------------------------------- history order */

  /** `a` is at least as recent as `b`: a later timestamp, or the same
      timestamp and a later insertion. */
  predicate NotOlder(a: Entry, b: Entry) {
    a.row.timestamp > b.row.timestamp || (a.row.timestamp == b.row.timestamp && a.pos >= b.pos)
  }

  /** The order of `ORDER BY timestamp DESC`. */
  predicate NewestFirst(es: seq<Entry>) {
    forall i, j :: 0 <= i < j < |es| ==> NotOlder(es[i], es[j])
  }

  /** Chronological order, oldest first. */
  predicate OldestFirst(es: seq<Entry>) {
    forall i, j :: 0 <= i < j < |es| ==> NotOlder(es[j], es[i])
  }

  lemma InsertBehindHead(x: Entry, es: seq<Entry>, rest: seq<Entry>)
    requires |es| > 0 && NewestFirst(es) && !NotOlder(x, es[0])
    requires multiset(rest) == multiset(es[1..]) + multiset{x}
    ensures forall k :: 0 <= k < |rest| ==> NotOlder(es[0], rest[k])
  {
    forall k | 0 <= k < |rest|
      ensures NotOlder(es[0], rest[k])
    {
      assert rest[k] in multiset(rest);
      if rest[k] != x {
        assert rest[k] in es[1..];
      }
    }
  }

  function InsertNewestFirst(x: Entry, es: seq<Entry>): (r: seq<Entry>)
    requires NewestFirst(es)
    ensures NewestFirst(r)
    ensures multiset(r) == multiset(es) + multiset{x}
  {
    if |es| == 0 then [x]
    else if NotOlder(x, es[0]) then
      assert es == [es[0]] + es[1..];
      [x] + es
    else
      var rest := InsertNewestFirst(x, es[1..]);
      InsertBehindHead(x, es, rest);
      assert es == [es[0]] + es[1..];
      [es[0]] + rest
  }

  /** Sorts newest first (an insertion sort). */
  function SortNewestFirst(es: seq<Entry>): (r: seq<Entry>)
    ensures NewestFirst(r)
    ensures multiset(r) == multiset(es)
  {
    if |es| == 0 then []
    else
      assert es == [es[0]] + es[1..];
      InsertNewestFirst(es[0], SortNewestFirst(es[1..]))
  }

  /** SQLite's `LIMIT n`: the first `n` rows; a negative `n` means no limit. */
  function Limit(es: seq<Entry>, n: int): (r: seq<Entry>)
    ensures |r| == WindowSize(n, |es|) && r == es[..|r|]
  {
    if n < 0 then es else es[..Min(n, |es|)]
  }

  /** Python's `list.reverse()`. */
  function Reverse(es: seq<Entry>): (r: seq<Entry>)
    ensures |r| == |es|
    ensures forall k :: 0 <= k < |es| ==> r[k] == es[|es| - 1 - k]
    ensures multiset(r) == multiset(es)
  {
    if |es| == 0 then []
    else
      assert es == [es[0]] + es[1..];
      Reverse(es[1..]) + [es[0]]
  }

  /** How many rows a query with `LIMIT n` returns out of `count`. */
  function WindowSize(n: int, count: nat): nat {
    if n < 0 then count else Min(n, count)
  }

  /** The entries `get_session_history(s, limit)` returns: session `s`'s rows,
      newest first, cut at `limit`, then reversed. The result is
      chronological, holds only rows of `s` without repetition, has
      min(limit, count) of them, and no row of `s` that was left out is newer
      than one that was kept. */
  function HistoryEntries(t: ChatTable, s: string, limit: int): (r: seq<Entry>)
    ensures OldestFirst(r)
    ensures multiset(r) <= multiset(SessionEntries(t, s))
    ensures forall k :: 0 <= k < |r| ==> r[k] in SessionEntries(t, s)
    ensures forall k :: 0 <= k < |r| ==>
      r[k].pos < |t| && t[r[k].pos] == r[k].row && r[k].row.sessionId == s
    ensures |r| == WindowSize(limit, |SessionRows(t, s)|)
    ensures forall e, k :: e in SessionEntries(t, s) && e !in r && 0 <= k < |r| ==> NotOlder(r[k], e)
  {
    var se := SessionEntries(t, s);
    var d := SortNewestFirst(se);
    var p := Limit(d, limit);
    var r := Reverse(p);
    WindowFacts(se, limit, d, p, r);
    assert |se| == |Rows(se)|;
    r
  }

  /** The window of `get_session_history` over any list of entries: the
      newest `limit` of them, oldest first. */
  lemma WindowFacts(se: seq<Entry>, limit: int, d: seq<Entry>, p: seq<Entry>, r: seq<Entry>)
    requires NewestFirst(d) && multiset(d) == multiset(se)
    requires p == Limit(d, limit)
    requires r == Reverse(p)
    ensures OldestFirst(r)
    ensures multiset(r) <= multiset(se)
    ensures forall k :: 0 <= k < |r| ==> r[k] in se
    ensures |r| == WindowSize(limit, |se|)
    ensures forall e, k :: e in se && e !in r && 0 <= k < |r| ==> NotOlder(r[k], e)
  {
    assert |d| == |se| by {
      assert |multiset(d)| == |multiset(se)|;
    }
    KeptAreNewest(se, d, p);
    ReversedWindow(se, p, r);
  }

  lemma ReversedWindow(se: seq<Entry>, p: seq<Entry>, r: seq<Entry>)
    requires NewestFirst(p)
    requires |r| == |p| && forall k :: 0 <= k < |p| ==> r[k] == p[|p| - 1 - k]
    requires multiset(r) == multiset(p)
    requires forall k :: 0 <= k < |p| ==> p[k] in se
    requires forall e, k :: e in se && e !in p && 0 <= k < |p| ==> NotOlder(p[k], e)
    ensures OldestFirst(r)
    ensures forall k :: 0 <= k < |r| ==> r[k] in se
    ensures forall e, k :: e in se && e !in r && 0 <= k < |r| ==> NotOlder(r[k], e)
  {
    forall e, k | e in se && e !in r && 0 <= k < |r|
      ensures NotOlder(r[k], e)
    {
      assert e !in multiset(p);
      assert r[k] == p[|p| - 1 - k];
    }
  }

  lemma KeptAreNewest(se: seq<Entry>, d: seq<Entry>, p: seq<Entry>)
    requires NewestFirst(d) && multiset(d) == multiset(se)
    requires |p| <= |d| && p == d[..|p|]
    ensures NewestFirst(p)
    ensures multiset(p) <= multiset(se)
    ensures forall e, k :: e in se && e !in p && 0 <= k < |p| ==> NotOlder(p[k], e)
    ensures forall k :: 0 <= k < |p| ==> p[k] in se
  {
    assert d == p + d[|p|..];
    assert multiset(d) == multiset(p) + multiset(d[|p|..]);
    forall e, k | e in se && e !in p && 0 <= k < |p|
      ensures NotOlder(p[k], e)
    {
      assert e in multiset(d);
      var j :| 0 <= j < |d| && d[j] == e;
      assert p[k] == d[k];
      assert forall i :: 0 <= i < |p| ==> d[i] != e;
      assert j >= |p|;
    }
    forall k | 0 <= k < |p|
      ensures p[k] in se
    {
      assert p[k] in multiset(p);
      assert p[k] in multiset(se);
    }
  }

  /** The history never lists the same row twice: its entries are drawn,
      without repetition, from the session's entries, whose positions are
      all different. */
  lemma HistoryDistinct(t: ChatTable, s: string, limit: int)
    ensures var h := HistoryEntries(t, s, limit);
      forall k, l :: 0 <= k < l < |h| ==> h[k] != h[l]
  {
    var h := HistoryEntries(t, s, limit);
    var se := SessionEntries(t, s);
    assert multiset(h) <= multiset(se);
    assert forall k, l :: 0 <= k < l < |se| ==> se[k].pos < se[l].pos;
    NoRepeatIn(h, se);
  }

  /** A sub-multiset of entries with strictly increasing positions lists no
      entry twice. */
  lemma NoRepeatIn(h: seq<Entry>, se: seq<Entry>)
    requires multiset(h) <= multiset(se)
    requires forall k, l :: 0 <= k < l < |se| ==> se[k].pos < se[l].pos
    ensures forall k, l :: 0 <= k < l < |h| ==> h[k] != h[l]
  {
    forall k, l | 0 <= k < l < |h|
      ensures h[k] != h[l]
    {
      if h[k] == h[l] {
        CountTwo(h, k, l);
        CountAtMostOne(se, h[k]);
        assert false;
      }
    }
  }

  /** An element found at two indices occurs at least twice. */
  lemma CountTwo<T>(xs: seq<T>, k: int, l: int)
    requires 0 <= k < l < |xs| && xs[k] == xs[l]
    ensures multiset(xs)[xs[k]] >= 2
  {
    assert xs == xs[..l] + [xs[l]] + xs[l + 1..];
    assert xs[..l][k] == xs[k];
    assert xs[k] in multiset(xs[..l]);
  }

  /** Entries with strictly increasing positions hold each entry at most
      once. */
  lemma {:induction false} CountAtMostOne(es: seq<Entry>, e: Entry)
    requires forall k, l :: 0 <= k < l < |es| ==> es[k].pos < es[l].pos
    ensures multiset(es)[e] <= 1
  {
    if |es| > 0 {
      var init := es[..|es| - 1];
      assert es == init + [es[|es| - 1]];
      CountAtMostOne(init, e);
      if e == es[|es| - 1] {
        assert forall k :: 0 <= k < |init| ==> init[k] != e;
        assert e !in multiset(init);
      }
    }
  }

  /** The rows `get_session_history(s, limit)` reads. */
  function HistoryRows(t: ChatTable, s: string, limit: int): seq<Row> {
    Rows(HistoryEntries(t, s, limit))
  }

  /** `get_session_history(session_id, limit)`: the history rows converted to
      entities. On a well-formed table it succeeds; its messages belong to the
      session, are in ascending timestamp order and number min(limit, count). */
  function GetSessionHistory(t: ChatTable, s: string, limit: int): (r: Result<seq<ChatMessage>, Error>)
    ensures WellFormed(t) ==> r.Success?
    ensures r.Success? ==>
      var ms := r.value;
      && |ms| == WindowSize(limit, |SessionRows(t, s)|)
      && (forall k :: 0 <= k < |ms| ==> ms[k].sessionId == s && ms[k].timestamp.Some?)
      && (forall k, l :: 0 <= k < l < |ms| ==> ms[k].timestamp.value <= ms[l].timestamp.value)
    ensures r.Success? ==>
      && |r.value| == |HistoryRows(t, s, limit)|
      && forall k :: 0 <= k < |r.value| ==> r.value[k] == RowFields(HistoryRows(t, s, limit)[k])
  {
    var es := HistoryEntries(t, s, limit);
    var r := ToEntities(Rows(es));
    HistoryEntities(t, s, es, r);
    r
  }

  lemma HistoryEntities(t: ChatTable, s: string, es: seq<Entry>, r: Result<seq<ChatMessage>, Error>)
    requires OldestFirst(es)
    requires forall k :: 0 <= k < |es| ==>
      es[k].pos < |t| && t[es[k].pos] == es[k].row && es[k].row.sessionId == s
    requires r == ToEntities(Rows(es))
    ensures WellFormed(t) ==> r.Success?
    ensures r.Success? ==>
      var ms := r.value;
      && |ms| == |es|
      && (forall k :: 0 <= k < |ms| ==> ms[k].sessionId == s && ms[k].timestamp == Some(es[k].row.timestamp))
      && (forall k, l :: 0 <= k < l < |ms| ==> ms[k].timestamp.value <= ms[l].timestamp.value)
  {
    var rows := Rows(es);
    if WellFormed(t) {
      forall k | 0 <= k < |rows|
        ensures RowFields(rows[k]).Valid()
      {
        assert rows[k] == t[es[k].pos];
      }
    }
    if r.Success? {
      var ms := r.value;
      forall k | 0 <= k < |ms|
        ensures ms[k].sessionId == s && ms[k].timestamp == Some(es[k].row.timestamp)
      {
        assert ms[k] == RowFields(rows[k]);
      }
      forall k, l | 0 <= k < l < |ms|
        ensures ms[k].timestamp.value <= ms[l].timestamp.value
      {
        assert NotOlder(es[l], es[k]);
      }
    }
  }

  /** `get_recent_messages(session_id, limit)`: the same query as the
      history, with the window size as limit. */
  function GetRecentMessages(t: ChatTable, s: string, count: int): (r: Result<seq<ChatMessage>, Error>)
    ensures WellFormed(t) ==> r.Success?
    ensures r.Success? ==> |r.value| == WindowSize(count, |SessionRows(t, s)|)
    ensures r.Success? ==>
      forall k :: 0 <= k < |r.value| ==> r.value[k].sessionId == s && r.value[k].timestamp.Some?
    ensures r.Success? ==>
      forall k, l :: 0 <= k < l < |r.value| ==> r.value[k].timestamp.value <= r.value[l].timestamp.value
    ensures r.Success? ==>
      && |r.value| == |HistoryRows(t, s, count)|
      && forall k :: 0 <= k < |r.value| ==> r.value[k] == RowFields(HistoryRows(t, s, count)[k])
  {
    GetSessionHistory(t, s, count)
  }

  /* ------------------------------------------------- delete_session_history */

  /** The table without the rows of session `s`, the others in their order. */
  function Without(t: ChatTable, s: string): (r: ChatTable)
    ensures |r| + |SessionRows(t, s)| == |t|
    ensures SessionRows(r, s) == []
    ensures forall k :: 0 <= k < |r| ==> r[k].sessionId != s && r[k] in t
  {
    if |t| == 0 then []
    else
      var before := Without(t[..|t| - 1], s);
      var last := t[|t| - 1];
      assert forall k :: 0 <= k < |before| ==> before[k] in t[..|t| - 1];
      if last.sessionId == s then before
      else
        SessionRowsAppend(before, last, s);
        before + [last]
  }

  /** Removing one session keeps every other session's rows as they were. */
  lemma {:induction false} WithoutKeepsOthers(t: ChatTable, s: string, other: string)
    requires other != s
    ensures SessionRows(Without(t, s), other) == SessionRows(t, other)
  {
    if |t| > 0 {
      var front := t[..|t| - 1];
      var last := t[|t| - 1];
      WithoutKeepsOthers(front, s, other);
      assert SessionRows(t, other) ==
        SessionRows(front, other) + (if last.sessionId == other then [last] else []);
      if last.sessionId != s {
        assert Without(t, s) == Without(front, s) + [last];
        SessionRowsAppend(Without(front, s), last, other);
      } else {
        assert Without(t, s) == Without(front, s);
      }
    }
  }

  /** `delete_session_history(session_id)`: removes exactly the rows of the
      session and returns how many there were; other sessions keep their rows. */
  function DeleteSessionHistory(t: ChatTable, s: string): (r: (ChatTable, nat))
    ensures r.1 == |t| - |r.0| == |SessionRows(t, s)|
    ensures SessionRows(r.0, s) == []
    ensures forall k :: 0 <= k < |r.0| ==> r.0[k].sessionId != s && r.0[k] in t
    ensures WellFormed(t) ==> WellFormed(r.0)
  {
    var rest := Without(t, s);
    assert forall k :: 0 <= k < |rest| ==> exists i :: 0 <= i < |t| && t[i] == rest[k];
    (rest, |SessionRows(t, s)|)
  }

  /** Deleting a session leaves the rows of every other session as they were. */
  lemma DeleteKeepsOtherSessions(t: ChatTable, s: string)
    ensures forall other :: other != s ==>
      SessionRows(DeleteSessionHistory(t, s).0, other) == SessionRows(t, other)
  {
    forall other | other != s
      ensures SessionRows(Without(t, s), other) == SessionRows(t, other)
    {
      WithoutKeepsOthers(t, s, other);
    }
  }

  /** After a delete the session's history is empty, and the count the delete
      returned is the size of the session's unlimited history before it. */
  lemma DeleteThenHistory(t: ChatTable, s: string, limit: int)
    requires WellFormed(t)
    ensures var (t', n) := DeleteSessionHistory(t, s);
      && GetSessionHistory(t', s, limit) == Success([])
      && n == |GetSessionHistory(t, s, -1).value|
  {
  }

  /** An entry of the session strictly newer than all others ends every
      non-empty window of the history. */
  lemma DominantEndsHistory(t: ChatTable, s: string, limit: int, x: Entry)
    requires x in SessionEntries(t, s)
    requires forall e :: e in SessionEntries(t, s) && e != x ==> !NotOlder(e, x)
    requires limit != 0
    ensures var h := HistoryEntries(t, s, limit); |h| > 0 && h[|h| - 1] == x
  {
    var se := SessionEntries(t, s);
    assert |se| > 0;
    assert |se| == |SessionRows(t, s)|;
    WindowEndsWithDominant(se, HistoryEntries(t, s, limit), x);
  }

  /** In a window of newest entries, oldest first, an entry strictly newer
      than all others comes last. */
  lemma WindowEndsWithDominant(se: seq<Entry>, h: seq<Entry>, x: Entry)
    requires x in se
    requires forall e :: e in se && e != x ==> !NotOlder(e, x)
    requires |h| > 0 && OldestFirst(h)
    requires forall k :: 0 <= k < |h| ==> h[k] in se
    requires forall e, k :: e in se && e !in h && 0 <= k < |h| ==> NotOlder(h[k], e)
    ensures h[|h| - 1] == x
  {
    var first := h[0];
    assert first in se;
    if x !in h {
      assert false;
    }
    var j :| 0 <= j < |h| && h[j] == x;
    assert j == |h| - 1 || NotOlder(h[|h| - 1], h[j]);
  }

  /** When no earlier row of the session is timestamped after a row
      appended to the table, that row's message ends any non-empty window of
      the session's history. */
  lemma NewestEndsHistory(t: ChatTable, row: Row, limit: int)
    requires forall i :: 0 <= i < |t| && t[i].sessionId == row.sessionId ==>
      t[i].timestamp <= row.timestamp
    requires limit != 0
    requires GetSessionHistory(t + [row], row.sessionId, limit).Success?
    ensures var ms := GetSessionHistory(t + [row], row.sessionId, limit).value;
      |ms| > 0 && ms[|ms| - 1] == RowFields(row)
  {
    var s := row.sessionId;
    var t' := t + [row];
    NewRowDominates(t, row, s);
    DominantEndsHistory(t', s, limit, Entry(|t|, row));
    var h := HistoryEntries(t', s, limit);
    var ms := GetSessionHistory(t', s, limit).value;
    assert |ms| == |h|;
    assert ms[|ms| - 1] == RowFields(HistoryRows(t', s, limit)[|h| - 1]);
  }

  lemma NewRowDominates(t: ChatTable, row: Row, s: string)
    requires row.sessionId == s
    requires forall i :: 0 <= i < |t| && t[i].sessionId == s ==> t[i].timestamp <= row.timestamp
    ensures Entry(|t|, row) in SessionEntries(t + [row], s)
    ensures forall e :: e in SessionEntries(t + [row], s) && e != Entry(|t|, row) ==>
      !NotOlder(e, Entry(|t|, row))
  {
    var before := SessionEntries(t, s);
    SessionEntriesAppend(t, row, s);
    forall k | 0 <= k < |before|
      ensures before[k].pos < |t| && before[k].row.timestamp <= row.timestamp
    {
    }
    NewestLast(before, Entry(|t|, row));
  }

  /** An entry appended after entries that are all earlier in position and
      no later in time is strictly newer than each of them. */
  lemma NewestLast(before: seq<Entry>, x: Entry)
    requires forall k :: 0 <= k < |before| ==>
      before[k].pos < x.pos && before[k].row.timestamp <= x.row.timestamp
    ensures x in before + [x]
    ensures forall e :: e in before + [x] && e != x ==> !NotOlder(e, x)
  {
    var se := before + [x];
    assert se[|before|] == x;
    forall e | e in se && e != x
      ensures !NotOlder(e, x)
    {
      var k :| 0 <= k < |se| && se[k] == e;
      assert se[k] == before[k];
    }
  }

  /** A session that starts with two rows, the second not timestamped before
      the first, has both in its history, in insertion order, whenever the
      limit admits two rows. */
  lemma FirstPairHistory(t: ChatTable, s: string, u: Row, a: Row, limit: int)
    requires SessionRows(t, s) == []
    requires u.sessionId == s && a.sessionId == s
    requires u.timestamp <= a.timestamp
    requires limit < 0 || limit >= 2
    ensures HistoryRows(t + [u, a], s, limit) == [u, a]
    ensures SessionRows(t + [u, a], s) == [u, a]
  {
    var t2 := t + [u, a];
    var e0 := Entry(|t|, u);
    var e1 := Entry(|t| + 1, a);
    FirstPairRows(t, s, u, a);
    FirstPairEntries(t, s, u, a);
    PairHistoryEntries(t2, s, limit, e0, e1);
    var h := [e0, e1];
    assert Rows(h)[0] == u && Rows(h)[1] == a;
  }

  /** A session of exactly two entries, the second no older than the first,
      has both in its history, oldest first, whenever the limit admits two. */
  lemma PairHistoryEntries(t: ChatTable, s: string, limit: int, e0: Entry, e1: Entry)
    requires SessionEntries(t, s) == [e0, e1]
    requires e0.pos < e1.pos && e0.row.timestamp <= e1.row.timestamp
    requires limit < 0 || limit >= 2
    ensures HistoryEntries(t, s, limit) == [e0, e1]
  {
    var se := SessionEntries(t, s);
    var h := HistoryEntries(t, s, limit);
    assert |se| == |SessionRows(t, s)|;
    HistoryDistinct(t, s, limit);
    PairWindow(se, h, e0, e1);
  }

  /** The two rows are the session's entries, in insertion order. */
  lemma FirstPairEntries(t: ChatTable, s: string, u: Row, a: Row)
    requires SessionRows(t, s) == []
    requires u.sessionId == s && a.sessionId == s
    ensures SessionEntries(t + [u, a], s) == [Entry(|t|, u), Entry(|t| + 1, a)]
  {
    FirstEntry(t, s, u);
    SecondEntry(t, s, u, a);
  }

  /** A row appended after the first row of a session is its second entry. */
  lemma SecondEntry(t: ChatTable, s: string, u: Row, a: Row)
    requires a.sessionId == s
    ensures SessionEntries(t + [u, a], s) == SessionEntries(t + [u], s) + [Entry(|t| + 1, a)]
  {
    assert (t + [u, a])[..|t| + 1] == t + [u];
  }

  /** The first row of a session is its only entry. */
  lemma FirstEntry(t: ChatTable, s: string, u: Row)
    requires SessionRows(t, s) == []
    requires u.sessionId == s
    ensures SessionEntries(t + [u], s) == [Entry(|t|, u)]
  {
    NoSessionEntries(t, s);
    SessionEntriesAppend(t, u, s);
  }

  lemma NoSessionEntries(t: ChatTable, s: string)
    requires SessionRows(t, s) == []
    ensures SessionEntries(t, s) == []
  {
    assert |Rows(SessionEntries(t, s))| == |SessionRows(t, s)|;
  }

  lemma FirstPairRows(t: ChatTable, s: string, u: Row, a: Row)
    requires SessionRows(t, s) == []
    requires u.sessionId == s && a.sessionId == s
    ensures SessionRows(t + [u, a], s) == [u, a]
  {
    var t1 := t + [u];
    assert t + [u, a] == t1 + [a];
    SessionRowsAppend(t, u, s);
    SessionRowsAppend(t1, a, s);
  }

  lemma SessionEntriesAppend(t: ChatTable, row: Row, s: string)
    ensures SessionEntries(t + [row], s) ==
      SessionEntries(t, s) + (if row.sessionId == s then [Entry(|t|, row)] else [])
  {
    assert (t + [row])[..|t|] == t;
  }

  /** Two different entries of a list of two, the later one no older than
      the earlier, listed oldest first, are that list. */
  lemma PairWindow(se: seq<Entry>, h: seq<Entry>, e0: Entry, e1: Entry)
    requires se == [e0, e1]
    requires e0.pos < e1.pos && e0.row.timestamp <= e1.row.timestamp
    requires |h| == 2 && NotOlder(h[1], h[0]) && h[0] != h[1]
    requires h[0] in se && h[1] in se
    ensures h == se
  {
  }

  /** A history of two valid rows reads back as their two messages. */
  lemma PairHistoryRead(t: ChatTable, s: string, limit: int, u: Row, a: Row)
    requires HistoryRows(t, s, limit) == [u, a]
    requires RowFields(u).Valid() && RowFields(a).Valid()
    ensures GetSessionHistory(t, s, limit) == Success([RowFields(u), RowFields(a)])
  {
    assert GetSessionHistory(t, s, limit) == ToEntities(HistoryRows(t, s, limit));
    PairConversion(u, a);
  }

  lemma PairConversion(u: Row, a: Row)
    requires RowFields(u).Valid() && RowFields(a).Valid()
    ensures ToEntities([u, a]) == Success([RowFields(u), RowFields(a)])
  {
    var rows := [u, a];
    assert rows[0] == u && rows[1] == a;
    var r := ToEntities(rows);
    assert r.Success?;
    assert r.value[0] == RowFields(u) && r.value[1] == RowFields(a);
    assert r.value == [RowFields(u), RowFields(a)];
  }
}
