/**
 * The SQLite store of the assistant (`DatabaseManager`) as in-memory tables.
 * Each table is the sequence of its rows in the order of their
 * autoincrement `id`; `INSERT OR REPLACE` deletes the conflicting row and
 * appends the new one, as SQLite does. `CURRENT_TIMESTAMP` is the integer
 * field `clock`, which the environment advances and every write stamps.
 */
module Database {
  import opened Wrappers
  import Text
  import Json
  import opened Ordering

  // ---------------------------------------------------------------------------
  // Rows of the four tables
  // ---------------------------------------------------------------------------

  datatype SearchRow = SearchRow(userId: string, query: string, searchType: string, timestamp: int)

  datatype InterestRow = InterestRow(userId: string, topic: string, score: int, lastAccessed: int)

  /** A row of `cached_papers`; `authors` holds the JSON text of the author list; a NULL summary is None. */
  datatype PaperRow = PaperRow(
    paperId: string, title: string, authors: string, year: int, abstractText: string,
    url: string, summary: Option<string>, searchQuery: string, cachedDate: int)

  /** A row of `chat_sessions`; `functionCalls` holds JSON text. */
  datatype ChatRow = ChatRow(userId: string, message: string, response: string, functionCalls: string, timestamp: int)

  // ---------------------------------------------------------------------------
  // What the methods take and return
  // ---------------------------------------------------------------------------

  /** The dictionary given to `cache_paper`; a key that is absent is None. */
  datatype PaperData = PaperData(
    id: Option<string>, title: Option<string>, authors: Option<seq<string>>, year: Option<int>,
    abstractText: Option<string>, url: Option<string>, searchQuery: Option<string>)

  datatype HistoryItem = HistoryItem(query: string, searchType: string, timestamp: int)

  datatype InterestItem = InterestItem(topic: string, score: int, lastAccessed: int)

  /** The dictionary `get_cached_paper` returns for a row. */
  datatype CachedPaper = CachedPaper(
    id: string, title: string, authors: seq<string>, year: int, abstractText: string,
    url: string, summary: Option<string>, searchQuery: string)

  datatype PaperTitle = PaperTitle(paperId: string, title: string)

  // ---------------------------------------------------------------------------
  // Tables with a unique key
  // ---------------------------------------------------------------------------

  /** No two rows share a key (a `UNIQUE` constraint). */
  predicate UniqueBy<T, K(==)>(rows: seq<T>, key: T -> K) {
    forall i, j :: 0 <= i < j < |rows| ==> key(rows[i]) != key(rows[j])
  }

  /** The rows whose key is not `k`, in their order: what a conflict deletes leaves. */
  function Without<T, K(==)>(rows: seq<T>, key: T -> K, k: K): (r: seq<T>)
    ensures forall i :: 0 <= i < |r| ==> r[i] in rows && key(r[i]) != k
    ensures forall i :: 0 <= i < |rows| && key(rows[i]) != k ==> rows[i] in r
  {
    if rows == [] then []
    else (if key(rows[0]) == k then [] else [rows[0]]) + Without(rows[1..], key, k)
  }

  /** The first row whose key is `k`. */
  function RowWithKey<T, K(==)>(rows: seq<T>, key: T -> K, k: K): (r: Option<T>)
    ensures r.None? <==> forall i :: 0 <= i < |rows| ==> key(rows[i]) != k
    ensures r.Some? ==> r.value in rows && key(r.value) == k
  {
    if rows == [] then None
    else if key(rows[0]) == k then Some(rows[0])
    else RowWithKey(rows[1..], key, k)
  }

  lemma {:induction false} WithoutUnique<T, K>(rows: seq<T>, key: T -> K, k: K)
    requires UniqueBy(rows, key)
    ensures UniqueBy(Without(rows, key, k), key)
  {
    if rows != [] {
      WithoutUnique(rows[1..], key, k);
      var t := Without(rows[1..], key, k);
      if key(rows[0]) != k {
        forall j | 0 <= j < |t| ensures key(rows[0]) != key(t[j]) {
          assert t[j] in rows[1..];
          var m :| 0 <= m < |rows[1..]| && rows[1..][m] == t[j];
          assert rows[m + 1] == t[j];
        }
        assert Without(rows, key, k) == [rows[0]] + t;
      }
    }
  }

  /** A row appended with a key no other row has keeps the keys unique. */
  lemma AppendUnique<T, K>(rows: seq<T>, key: T -> K, x: T)
    requires UniqueBy(rows, key)
    requires forall y :: y in rows ==> key(y) != key(x)
    ensures UniqueBy(rows + [x], key)
  {
    var r := rows + [x];
    forall i, j | 0 <= i < j < |r| ensures key(r[i]) != key(r[j]) {
      if j == |rows| {
        assert r[i] in rows;
      }
    }
  }

  /** In a table with unique keys the row with the key is the only one. */
  lemma RowWithKeyUnique<T, K>(rows: seq<T>, key: T -> K, i: nat)
    requires UniqueBy(rows, key) && i < |rows|
    ensures RowWithKey(rows, key, key(rows[i])) == Some(rows[i])
  {
    var k := key(rows[i]);
    var r := RowWithKey(rows, key, k);
    var m :| 0 <= m < |rows| && rows[m] == r.value;
    assert m == i;
  }

  /**
   * `INSERT OR REPLACE` of a row whose key is `key(x)`: afterwards the only row
   * with that key is `x`, every other key finds the row it found before, and
   * keys stay unique.
   */
  lemma ReplaceSpec<T, K>(rows: seq<T>, key: T -> K, x: T)
    requires UniqueBy(rows, key)
    ensures var r := Without(rows, key, key(x)) + [x];
      && UniqueBy(r, key)
      && RowWithKey(r, key, key(x)) == Some(x)
      && forall k :: k != key(x) ==> RowWithKey(r, key, k) == RowWithKey(rows, key, k)
  {
    var w := Without(rows, key, key(x));
    var r := w + [x];
    WithoutUnique(rows, key, key(x));
    AppendUnique(w, key, x);
    RowWithKeyUnique(r, key, |w|);
    forall k | k != key(x) ensures RowWithKey(r, key, k) == RowWithKey(rows, key, k) {
      var b := RowWithKey(rows, key, k);
      if b.Some? {
        var m :| 0 <= m < |rows| && rows[m] == b.value;
        assert b.value in w;
        var n :| 0 <= n < |w| && w[n] == b.value;
        assert r[n] == b.value;
        RowWithKeyUnique(r, key, n);
        RowWithKeyUnique(rows, key, m);
      }
    }
  }

  // ---------------------------------------------------------------------------
  // user_interests
  // ---------------------------------------------------------------------------

  function InterestKey(r: InterestRow): (string, string) { (r.userId, r.topic) }

  /** The `interest_score` that `update_user_interest` writes: the old score plus one, or 1. */
  function NextScore(rows: seq<InterestRow>, userId: string, topic: string): int {
    match RowWithKey(rows, InterestKey, (userId, topic))
    case None => 1
    case Some(prev) => prev.score + 1
  }

  /** The table after `update_user_interest(userId, topic)` with `topic` already lower-cased. */
  function UpsertInterest(rows: seq<InterestRow>, userId: string, topic: string, now: int): seq<InterestRow> {
    Without(rows, InterestKey, (userId, topic)) + [InterestRow(userId, topic, NextScore(rows, userId, topic), now)]
  }

  /**
   * After an interest update there is exactly one row for (user, topic); its
   * score is the previous score plus one, or 1 when there was none; its
   * `last_accessed` is now; every other (user, topic) keeps its row.
   */
  lemma UpsertInterestSpec(rows: seq<InterestRow>, userId: string, topic: string, now: int)
    requires UniqueBy(rows, InterestKey)
    ensures var r := UpsertInterest(rows, userId, topic, now);
      && UniqueBy(r, InterestKey)
      && RowWithKey(r, InterestKey, (userId, topic)).Some?
      && var row := RowWithKey(r, InterestKey, (userId, topic)).value;
      && row.lastAccessed == now
      && row.score == (match RowWithKey(rows, InterestKey, (userId, topic))
                       case None => 1
                       case Some(prev) => prev.score + 1)
      && forall k :: k != (userId, topic) ==> RowWithKey(r, InterestKey, k) == RowWithKey(rows, InterestKey, k)
  {
    ReplaceSpec(rows, InterestKey, InterestRow(userId, topic, NextScore(rows, userId, topic), now));
  }

  /** Scores never decrease: an update leaves every (user, topic) with a score at least its old one. */
  lemma UpsertInterestMonotone(rows: seq<InterestRow>, userId: string, topic: string, now: int, k: (string, string))
    requires UniqueBy(rows, InterestKey)
    requires RowWithKey(rows, InterestKey, k).Some?
    ensures var after := RowWithKey(UpsertInterest(rows, userId, topic, now), InterestKey, k);
      after.Some? && after.value.score >= RowWithKey(rows, InterestKey, k).value.score
  {
    UpsertInterestSpec(rows, userId, topic, now);
  }

  // ---------------------------------------------------------------------------
  // cached_papers
  // ---------------------------------------------------------------------------

  function PaperKey(r: PaperRow): string { r.paperId }

  /** The row `cache_paper(p)` writes: absent keys read as "", [] and 0; `summary` is not written, so NULL. */
  function NewPaperRow(p: PaperData, now: int): (r: PaperRow)
    ensures r.summary.None? && r.cachedDate == now
    ensures Json.DecodeStringList(r.authors) == Some(p.authors.GetOr([]))
  {
    Json.DecodeEncodeStringList(p.authors.GetOr([]));
    PaperRow(p.id.GetOr(""), p.title.GetOr(""), Json.EncodeStringList(p.authors.GetOr([])), p.year.GetOr(0),
             p.abstractText.GetOr(""), p.url.GetOr(""), None, p.searchQuery.GetOr(""), now)
  }

  function UpsertPaper(rows: seq<PaperRow>, p: PaperData, now: int): seq<PaperRow> {
    var row := NewPaperRow(p, now);
    Without(rows, PaperKey, row.paperId) + [row]
  }

  /** `json.loads(authors) if authors else []`, for a column that holds readable JSON. */
  function AuthorsOf(text: string): seq<string>
    requires text == [] || Json.DecodeStringList(text).Some?
  {
    if text == [] then [] else Json.DecodeStringList(text).value
  }

  predicate Readable(r: PaperRow) {
    r.authors == [] || Json.DecodeStringList(r.authors).Some?
  }

  function CachedPaperOf(r: PaperRow): CachedPaper
    requires Readable(r)
  {
    CachedPaper(r.paperId, r.title, AuthorsOf(r.authors), r.year, r.abstractText, r.url, r.summary, r.searchQuery)
  }

  /**
   * After `cache_paper(p)` the paper reads back with the fields of `p` (absent
   * ones as "", [] and 0), its authors list intact through JSON and no summary;
   * other papers read as before, and paper ids stay unique.
   */
  lemma CachePaperSpec(rows: seq<PaperRow>, p: PaperData, now: int)
    requires UniqueBy(rows, PaperKey)
    ensures var r := UpsertPaper(rows, p, now);
      && UniqueBy(r, PaperKey)
      && RowWithKey(r, PaperKey, p.id.GetOr("")).Some?
      && var row := RowWithKey(r, PaperKey, p.id.GetOr("")).value;
      && Readable(row)
      && CachedPaperOf(row) == CachedPaper(p.id.GetOr(""), p.title.GetOr(""), p.authors.GetOr([]), p.year.GetOr(0),
                                           p.abstractText.GetOr(""), p.url.GetOr(""), None, p.searchQuery.GetOr(""))
      && forall k :: k != p.id.GetOr("") ==> RowWithKey(r, PaperKey, k) == RowWithKey(rows, PaperKey, k)
  {
    var row := NewPaperRow(p, now);
    ReplaceSpec(rows, PaperKey, row);
  }

  /** Caching a paper keeps ids unique and stores a row under its id. */
  lemma UpsertPaperStores(rows: seq<PaperRow>, p: PaperData, now: int)
    requires UniqueBy(rows, PaperKey)
    ensures UniqueBy(UpsertPaper(rows, p, now), PaperKey)
    ensures RowWithKey(UpsertPaper(rows, p, now), PaperKey, p.id.GetOr("")).Some?
  {
    ReplaceSpec(rows, PaperKey, NewPaperRow(p, now));
  }

  /** Caching a paper keeps the row of every other id. */
  lemma UpsertPaperOther(rows: seq<PaperRow>, p: PaperData, now: int, k: string)
    requires UniqueBy(rows, PaperKey) && k != p.id.GetOr("")
    ensures RowWithKey(UpsertPaper(rows, p, now), PaperKey, k) == RowWithKey(rows, PaperKey, k)
  {
    ReplaceSpec(rows, PaperKey, NewPaperRow(p, now));
  }

  /** `UPDATE cached_papers SET summary = s WHERE paper_id = id`. */
  function WithSummary(rows: seq<PaperRow>, id: string, s: string): (r: seq<PaperRow>)
    ensures |r| == |rows|
    ensures forall i :: 0 <= i < |rows| ==>
      r[i] == if rows[i].paperId == id then rows[i].(summary := Some(s)) else rows[i]
  {
    if rows == [] then []
    else [if rows[0].paperId == id then rows[0].(summary := Some(s)) else rows[0]] + WithSummary(rows[1..], id, s)
  }

  /**
   * Saving a summary changes only the summary of the paper with that id: that
   * paper then reads back with the summary and every other paper reads as before.
   */
  lemma {:induction false} SaveSummarySpec(rows: seq<PaperRow>, id: string, s: string, k: string)
    ensures RowWithKey(WithSummary(rows, id, s), PaperKey, k) ==
      if k != id then RowWithKey(rows, PaperKey, k)
      else match RowWithKey(rows, PaperKey, id)
        case None => None
        case Some(row) => Some(row.(summary := Some(s)))
  {
    if rows != [] {
      SaveSummarySpec(rows[1..], id, s, k);
      assert WithSummary(rows, id, s)[1..] == WithSummary(rows[1..], id, s);
    }
  }

  /** Saving a summary for an id no paper has changes nothing. */
  lemma {:induction false} SaveSummaryAbsent(rows: seq<PaperRow>, id: string, s: string)
    requires RowWithKey(rows, PaperKey, id).None?
    ensures WithSummary(rows, id, s) == rows
  {
    if rows != [] {
      SaveSummaryAbsent(rows[1..], id, s);
      assert WithSummary(rows, id, s)[1..] == WithSummary(rows[1..], id, s);
    }
  }

  function PaperDateKey(r: PaperRow): Key { Key(r.cachedDate, 0) }

  function TitleOf(r: PaperRow): PaperTitle { PaperTitle(r.paperId, r.title) }

  // ---------------------------------------------------------------------------
  // The reads `WHERE user_id = ?`, before ordering
  // ---------------------------------------------------------------------------

  function HistoryItemOf(r: SearchRow): HistoryItem { HistoryItem(r.query, r.searchType, r.timestamp) }

  function HistoryKey(h: HistoryItem): Key { Key(h.timestamp, 0) }

  /** The selected columns of the user's rows of `search_history`, in table order. */
  function UserHistory(rows: seq<SearchRow>, userId: string): (r: seq<HistoryItem>)
    ensures forall h :: h in r <==>
      exists i :: 0 <= i < |rows| && rows[i].userId == userId && h == HistoryItemOf(rows[i])
  {
    if rows == [] then []
    else
      var last := rows[|rows| - 1];
      assert forall i :: 0 <= i < |rows| - 1 ==> rows[..|rows| - 1][i] == rows[i];
      UserHistory(rows[..|rows| - 1], userId) + (if last.userId == userId then [HistoryItemOf(last)] else [])
  }

  function InterestItemOf(r: InterestRow): InterestItem { InterestItem(r.topic, r.score, r.lastAccessed) }

  function InterestOrder(i: InterestItem): Key { Key(i.score, i.lastAccessed) }

  /** The selected columns of the user's rows of `user_interests`, in table order. */
  function UserInterests(rows: seq<InterestRow>, userId: string): (r: seq<InterestItem>)
    ensures forall t :: t in r <==>
      exists i :: 0 <= i < |rows| && rows[i].userId == userId && t == InterestItemOf(rows[i])
  {
    if rows == [] then []
    else
      var last := rows[|rows| - 1];
      assert forall i :: 0 <= i < |rows| - 1 ==> rows[..|rows| - 1][i] == rows[i];
      UserInterests(rows[..|rows| - 1], userId) + (if last.userId == userId then [InterestItemOf(last)] else [])
  }

  /** `function_calls or []`: None and the empty list are both stored as "[]". */
  function CallsOf(functionCalls: Option<seq<string>>): seq<string> {
    functionCalls.GetOr([])
  }

  // ---------------------------------------------------------------------------
  // The store
  // ---------------------------------------------------------------------------

  class DatabaseManager {
    const dbPath: string
    var searchHistory: seq<SearchRow>
    var userInterests: seq<InterestRow>
    var cachedPapers: seq<PaperRow>
    var chatSessions: seq<ChatRow>
    /** The value `CURRENT_TIMESTAMP` has now. */
    var clock: int

    /**
     * The table constraints (`UNIQUE(user_id, topic)`, `paper_id UNIQUE`), the
     * facts the writes keep (scores at least 1, topics lower case, author lists
     * readable as JSON) and no timestamp later than now.
     */
    ghost predicate Valid()
      reads this
    {
      && UniqueBy(userInterests, InterestKey)
      && UniqueBy(cachedPapers, PaperKey)
      && (forall r :: r in userInterests ==> r.score >= 1 && Text.IsLowerCase(r.topic) && r.lastAccessed <= clock)
      && (forall r :: r in cachedPapers ==> Readable(r) && r.cachedDate <= clock)
      && (forall r :: r in searchHistory ==> r.timestamp <= clock)
      && (forall r :: r in chatSessions ==> r.timestamp <= clock)
    }

    /** `DatabaseManager(db_path)` on a database that has no rows yet. */
    constructor (dbPath: string := "academic_assistant.db", now: int := 0)
      ensures Valid()
      ensures this.dbPath == dbPath && clock == now
      ensures searchHistory == [] && userInterests == [] && cachedPapers == [] && chatSessions == []
    {
      this.dbPath := dbPath;
      searchHistory := [];
      userInterests := [];
      cachedPapers := [];
      chatSessions := [];
      clock := now;
    }

    /** Time passes. */
    method AdvanceClock(dt: nat)
      requires Valid()
      modifies this`clock
      ensures Valid() && clock == old(clock) + dt
    {
      clock := clock + dt;
    }

    /** `log_search`: appends one row stamped now. */
    method LogSearch(userId: string, query: string, searchType: string := "academic")
      requires Valid()
      modifies this`searchHistory
      ensures Valid()
      ensures searchHistory == old(searchHistory) + [SearchRow(userId, query, searchType, clock)]
    {
      searchHistory := searchHistory + [SearchRow(userId, query, searchType, clock)];
    }

    /** `update_user_interest`: the upsert of (user, lower-cased topic) with the score incremented. */
    method UpdateUserInterest(userId: string, topic: string)
      requires Valid()
      modifies this`userInterests
      ensures Valid()
      ensures userInterests == UpsertInterest(old(userInterests), userId, Text.Lower(topic), clock)
    {
      var t := Text.Lower(topic);
      var w := Without(userInterests, InterestKey, (userId, t));
      var row := InterestRow(userId, t, NextScore(userInterests, userId, t), clock);
      UpsertInterestSpec(userInterests, userId, t, clock);
      assert forall r :: r in w ==> r in userInterests;
      userInterests := w + [row];
    }

    /** `get_user_search_history`: the user's searches, newest first, at most `limit` of them. */
    method GetUserSearchHistory(userId: string, limit: int := 20) returns (items: seq<HistoryItem>)
      ensures IsTopRows(items, UserHistory(searchHistory, userId), HistoryKey, limit)
    {
      var rows: seq<HistoryItem> := [];
      var i := 0;
      while i < |searchHistory|
        invariant 0 <= i <= |searchHistory|
        invariant rows == UserHistory(searchHistory[..i], userId)
      {
        var row := searchHistory[i];
        assert searchHistory[..i + 1][..i] == searchHistory[..i];
        if row.userId == userId {
          rows := rows + [HistoryItemOf(row)];
        }
        i := i + 1;
      }
      assert searchHistory[..i] == searchHistory;
      TopRowsSpec(rows, HistoryKey, limit);
      items := TopRows(rows, HistoryKey, limit);
    }

    /** `get_user_interests`: the user's topics by score and then `last_accessed`, both descending, at most `limit`. */
    method GetUserInterests(userId: string, limit: int := 10) returns (items: seq<InterestItem>)
      ensures IsTopRows(items, UserInterests(userInterests, userId), InterestOrder, limit)
    {
      var rows: seq<InterestItem> := [];
      var i := 0;
      while i < |userInterests|
        invariant 0 <= i <= |userInterests|
        invariant rows == UserInterests(userInterests[..i], userId)
      {
        var row := userInterests[i];
        assert userInterests[..i + 1][..i] == userInterests[..i];
        if row.userId == userId {
          rows := rows + [InterestItemOf(row)];
        }
        i := i + 1;
      }
      assert userInterests[..i] == userInterests;
      TopRowsSpec(rows, InterestOrder, limit);
      items := TopRows(rows, InterestOrder, limit);
    }

    /** `cache_paper`: the replace-on-conflict upsert keyed by paper id, which leaves `summary` NULL. */
    method CachePaper(p: PaperData)
      requires Valid()
      modifies this`cachedPapers
      ensures Valid()
      ensures cachedPapers == UpsertPaper(old(cachedPapers), p, clock)
    {
      var row := NewPaperRow(p, clock);
      var w := Without(cachedPapers, PaperKey, row.paperId);
      CachePaperSpec(cachedPapers, p, clock);
      assert forall r :: r in w ==> r in cachedPapers;
      cachedPapers := w + [row];
    }

    /** `get_cached_paper`: the paper with that id, or None (the empty dictionary) when there is none. */
    function GetCachedPaper(paperId: string): (r: Option<CachedPaper>)
      reads this
      requires Valid()
      ensures r.None? <==> forall i :: 0 <= i < |cachedPapers| ==> cachedPapers[i].paperId != paperId
      ensures r.Some? ==>
        exists i :: 0 <= i < |cachedPapers| && cachedPapers[i].paperId == paperId && r.value == CachedPaperOf(cachedPapers[i])
    {
      match RowWithKey(cachedPapers, PaperKey, paperId)
      case None => None
      case Some(row) => Some(CachedPaperOf(row))
    }

    /** `debug_cached_papers`: id and title of the ten most recently cached papers. */
    method DebugCachedPapers() returns (titles: seq<PaperTitle>, ghost rows: seq<PaperRow>)
      ensures |titles| == |rows| && forall i :: 0 <= i < |rows| ==> titles[i] == TitleOf(rows[i])
      ensures IsTopRows(rows, cachedPapers, PaperDateKey, 10)
    {
      var sorted := TopRows(cachedPapers, PaperDateKey, 10);
      titles := [];
      var i := 0;
      while i < |sorted|
        invariant 0 <= i <= |sorted|
        invariant |titles| == i && forall j :: 0 <= j < i ==> titles[j] == TitleOf(sorted[j])
      {
        titles := titles + [TitleOf(sorted[i])];
        i := i + 1;
      }
      rows := sorted;
      TopRowsSpec(cachedPapers, PaperDateKey, 10);
    }

    /** `save_paper_summary`: sets the summary of the paper with that id, if any. */
    method SavePaperSummary(paperId: string, summary: string)
      requires Valid()
      modifies this`cachedPapers
      ensures Valid()
      ensures cachedPapers == WithSummary(old(cachedPapers), paperId, summary)
    {
      var r := WithSummary(cachedPapers, paperId, summary);
      assert forall i :: 0 <= i < |r| ==> r[i].paperId == cachedPapers[i].paperId && r[i].authors == cachedPapers[i].authors;
      assert forall x :: x in r ==> Readable(x) && x.cachedDate <= clock by {
        forall x | x in r ensures Readable(x) && x.cachedDate <= clock {
          var i :| 0 <= i < |r| && r[i] == x;
          assert cachedPapers[i] in cachedPapers;
        }
      }
      cachedPapers := r;
    }

    /** `log_chat_session`: appends one row; absent function calls are stored as an empty JSON list. */
    method LogChatSession(userId: string, message: string, response: string, functionCalls: Option<seq<string>> := None)
      requires Valid()
      modifies this`chatSessions
      ensures Valid()
      ensures chatSessions == old(chatSessions) +
        [ChatRow(userId, message, response, Json.EncodeStringList(CallsOf(functionCalls)), clock)]
    {
      chatSessions := chatSessions + [ChatRow(userId, message, response, Json.EncodeStringList(CallsOf(functionCalls)), clock)];
    }
  }

  /** The function calls stored for a chat session read back as the list logged, an empty one for None. */
  lemma ChatCallsRoundTrip(functionCalls: Option<seq<string>>)
    ensures Json.DecodeStringList(Json.EncodeStringList(CallsOf(functionCalls))) ==
      Some(if functionCalls.Some? then functionCalls.value else [])
  {
    Json.DecodeEncodeStringList(CallsOf(functionCalls));
  }
}
