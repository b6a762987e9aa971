/**
 * The tutor agent (`AcademicTutorAgent`): the conversation loop around the
 * language model, and the four tools the model may call — searching papers,
 * summarising a cached paper, and reporting a user's search history and
 * interests — with the text each of them returns to the model.
 */
module TutorAgent {
  import opened Wrappers
  import opened Text
  import Json
  import Ordering
  import Database
  import Api = ApiIntegrations

  // ---------------------------------------------------------------------------
  // The input of the search tool: "query|year"
  // ---------------------------------------------------------------------------

  datatype SearchInput = SearchInput(query: string, year: Option<string>)

  /** `parts = input.split("|")`: the first part stripped, and the second, stripped, when there is one. */
  function ParseSearchInput(input: string): (r: SearchInput)
    ensures '|' !in r.query && (r.year.Some? ==> '|' !in r.year.value)
    ensures r.query == [] || (!IsSpace(r.query[0]) && !IsSpace(r.query[|r.query| - 1]))
  {
    var parts := SplitOn(input, '|');
    StripWithin(parts[0], '|');
    StripTrimmed(parts[0]);
    if |parts| > 1 then
      StripWithin(parts[1], '|');
      SearchInput(Strip(parts[0]), Some(Strip(parts[1])))
    else SearchInput(Strip(parts[0]), None)
  }

  /** A year is read exactly when the input holds a '|'. */
  lemma ParseSearchInputYear(input: string)
    ensures ParseSearchInput(input).year.Some? <==> '|' in input
  {
    SplitOnMany(input, '|');
  }

  /** "query|year" reads back as the stripped query and the stripped year. */
  lemma ParseSearchInputOf(query: string, year: string)
    requires '|' !in query && '|' !in year
    ensures ParseSearchInput(query + "|" + year) == SearchInput(Strip(query), Some(Strip(year)))
  {
    assert query + "|" + year == query + ['|'] + year;
    SplitOnFirst(query, '|', year);
    SplitOnNoSep(year, '|');
    assert SplitOn(query + "|" + year, '|') == [query, year];
  }

  /** "query|year|rest": the year is the part between the first two '|', and the rest is ignored. */
  lemma ParseSearchInputRest(query: string, year: string, rest: string)
    requires '|' !in query && '|' !in year
    ensures ParseSearchInput(query + "|" + year + "|" + rest) == SearchInput(Strip(query), Some(Strip(year)))
  {
    assert query + "|" + year + "|" + rest == query + ['|'] + (year + ['|'] + rest);
    SplitOnFirst(query, '|', year + ['|'] + rest);
    SplitOnFirst(year, '|', rest);
  }

  /** A query without '|' is the whole (stripped) input, with no year. */
  lemma ParseSearchInputPlain(query: string)
    requires '|' !in query
    ensures ParseSearchInput(query) == SearchInput(Strip(query), None)
  {
    SplitOnNoSep(query, '|');
  }

  // ---------------------------------------------------------------------------
  // Topics of a query
  // ---------------------------------------------------------------------------

  const Stopwords: set<string> := {"in", "on", "for", "about", "and", "or", "the", "a", "an", "with"}

  /** A word worth tracking as an interest: not a stop word and longer than two characters. */
  predicate IsTopic(w: string) { w !in Stopwords && |w| > 2 }

  /** The words that are topics, in their order. */
  function KeepTopics(ws: seq<string>): (r: seq<string>)
    ensures |r| <= |ws|
    ensures forall w :: w in r <==> w in ws && IsTopic(w)
  {
    if ws == [] then []
    else (if IsTopic(ws[0]) then [ws[0]] else []) + KeepTopics(ws[1..])
  }

  /** `_extract_topics_from_query`: the first three topic words of the lower-cased query. */
  function Topics(query: string): (r: seq<string>)
    ensures |r| <= 3
    ensures forall i :: 0 <= i < |r| ==> IsTopic(r[i]) && r[i] in Words(Lower(query))
    ensures var all := KeepTopics(Words(Lower(query)));
      |r| == (if |all| < 3 then |all| else 3) && r == all[..|r|]
  {
    Prefix(KeepTopics(Words(Lower(query))), 3)
  }

  /** Keeping topics works word by word: the topics keep the words' order, duplicates included. */
  lemma {:induction false} KeepTopicsConcat(a: seq<string>, b: seq<string>)
    ensures KeepTopics(a + b) == KeepTopics(a) + KeepTopics(b)
    decreases |a|
  {
    if a == [] {
      assert a + b == b;
    } else {
      assert (a + b)[0] == a[0];
      assert (a + b)[1..] == a[1..] + b;
      KeepTopicsConcat(a[1..], b);
    }
  }

  /** Words after the third topic word play no part: the topics of a query are those of its first words once these hold three. */
  lemma TopicsOfFirstWords(query: string, a: seq<string>, b: seq<string>)
    requires Words(Lower(query)) == a + b && |KeepTopics(a)| >= 3
    ensures Topics(query) == KeepTopics(a)[..3]
  {
    KeepTopicsConcat(a, b);
    assert (KeepTopics(a) + KeepTopics(b))[..3] == KeepTopics(a)[..3];
  }

  /** Topics are lower case, so the store's own lower-casing leaves them as they are. */
  lemma TopicsLowerCase(query: string)
    ensures forall i :: 0 <= i < |Topics(query)| ==> IsLowerCase(Topics(query)[i]) && Lower(Topics(query)[i]) == Topics(query)[i]
  {
    var ws := Words(Lower(query));
    WordsOfLowerCase(Lower(query));
    forall i | 0 <= i < |Topics(query)|
      ensures IsLowerCase(Topics(query)[i]) && Lower(Topics(query)[i]) == Topics(query)[i]
    {
      var t := Topics(query)[i];
      var j :| 0 <= j < |ws| && ws[j] == t;
      LowerOfLowerCase(t);
    }
  }

  // ---------------------------------------------------------------------------
  // Tool and agent texts
  // ---------------------------------------------------------------------------

  const PapersMarker: string := "PAPERS_FOUND:"
  const SummaryMarker: string := "SUMMARY_GENERATED:"
  const NoPapers: string := "No papers found for this query."
  const NotInCache: string := "Paper not found in cache. Please search for papers first."
  const NoHistory: string := "No search history found."
  const NoInterests: string := "No research interests tracked yet."
  const HistoryHeader: string := "Your recent searches:\n"
  const InterestsHeader: string := "Your research interests:\n"
  /** `_extract_user_id_from_context`: every search is recorded for this user. */
  const DefaultUser: string := "default_user"
  /** `search_papers`' default number of results. */
  const SearchLimit: int := 3
  /** The number of searches the history tool asks for. */
  const HistoryLimit: int := 10

  /** The lines of a report, one per element; `line` gets the element's position counted from 1. */
  function Lines<T>(xs: seq<T>, line: (nat, T) -> string): string {
    if xs == [] then [] else Lines(xs[..|xs| - 1], line) + line(|xs|, xs[|xs| - 1])
  }

  /** A text that every line contains for its own element is contained in the report for each element. */
  lemma {:induction false} LinesContain<T>(xs: seq<T>, line: (nat, T) -> string, pat: T -> string, i: nat)
    requires i < |xs|
    requires forall j :: 0 <= j < |xs| ==> Contains(line(j + 1, xs[j]), pat(xs[j]))
    ensures Contains(Lines(xs, line), pat(xs[i]))
    decreases |xs|
  {
    var init := xs[..|xs| - 1];
    if i == |xs| - 1 {
      ContainsRight(Lines(init, line), line(|xs|, xs[i]), pat(xs[i]));
    } else {
      assert forall j :: 0 <= j < |init| ==> init[j] == xs[j];
      LinesContain(init, line, pat, i);
      ContainsLeft(Lines(init, line), line(|xs|, xs[|xs| - 1]), pat(xs[i]));
    }
  }

  /** One paper in the search tool's reply. */
  function PaperEntry(i: nat, p: Api.Paper): string {
    IntToString(i) + ". **" + p.title + "** (" + IntToString(p.year) + ")\n"
    + "   Authors: " + Join(", ", Prefix(p.authors, 3)) + "\n"
    + "   URL: " + p.url + "\n"
    + "   Paper ID: " + p.id + "\n\n"
  }

  function SearchReport(papers: seq<Api.Paper>): string {
    PapersMarker + "\n" + Lines(papers, PaperEntry)
  }

  function PaperIdLine(p: Api.Paper): string { "Paper ID: " + p.id + "\n" }

  lemma PaperEntryHasId(i: nat, p: Api.Paper)
    ensures Contains(PaperEntry(i, p), PaperIdLine(p))
  {
    var head := IntToString(i) + ". **" + p.title + "** (" + IntToString(p.year) + ")\n"
      + "   Authors: " + Join(", ", Prefix(p.authors, 3)) + "\n"
      + "   URL: " + p.url + "\n";
    assert "   Paper ID: " == "   " + "Paper ID: ";
    assert PaperEntry(i, p) == (head + "   ") + PaperIdLine(p) + "\n";
    ContainsConcat(head + "   ", PaperIdLine(p), "\n");
  }

  /** The search tool's reply names the id of every paper found, the id `generate_summary` takes. */
  lemma SearchReportListsIds(papers: seq<Api.Paper>, i: nat)
    requires i < |papers|
    ensures Contains(SearchReport(papers), PaperIdLine(papers[i]))
  {
    forall j | 0 <= j < |papers| ensures Contains(PaperEntry(j + 1, papers[j]), PaperIdLine(papers[j])) {
      PaperEntryHasId(j + 1, papers[j]);
    }
    LinesContain(papers, PaperEntry, PaperIdLine, i);
    ContainsRight(PapersMarker + "\n", Lines(papers, PaperEntry), PaperIdLine(papers[i]));
  }

  /** One search in the history tool's reply; `timestampText` renders a stored timestamp. */
  function HistoryLine(h: Database.HistoryItem, timestampText: int -> string): string {
    "\U{2022} " + h.query + " (" + Prefix(timestampText(h.timestamp), 10) + ")\n"
  }

  function HistoryReport(items: seq<Database.HistoryItem>, timestampText: int -> string): string {
    HistoryHeader + Lines(items, (k: nat, h: Database.HistoryItem) => HistoryLine(h, timestampText))
  }

  function QueryText(h: Database.HistoryItem): string { "\U{2022} " + h.query + " (" }

  /** The history tool's reply holds the query of every search it reports. */
  lemma HistoryReportListsQueries(items: seq<Database.HistoryItem>, timestampText: int -> string, i: nat)
    requires i < |items|
    ensures Contains(HistoryReport(items, timestampText), QueryText(items[i]))
  {
    var line := (k: nat, h: Database.HistoryItem) => HistoryLine(h, timestampText);
    forall j | 0 <= j < |items| ensures Contains(line(j + 1, items[j]), QueryText(items[j])) {
      var h := items[j];
      assert line(j + 1, h) == [] + QueryText(h) + (Prefix(timestampText(h.timestamp), 10) + ")\n");
      ContainsConcat([], QueryText(h), Prefix(timestampText(h.timestamp), 10) + ")\n");
    }
    LinesContain(items, line, QueryText, i);
    ContainsRight(HistoryHeader, Lines(items, line), QueryText(items[i]));
  }

  /** One interest in the interests tool's reply: the topic in title case and its score. */
  function InterestLine(k: nat, t: Database.InterestItem): string {
    "\U{2022} " + Title(t.topic) + " (searched " + IntToString(t.score) + " times)\n"
  }

  function InterestsReport(items: seq<Database.InterestItem>): string {
    InterestsHeader + Lines(items, InterestLine)
  }

  function TopicText(t: Database.InterestItem): string { "\U{2022} " + Title(t.topic) + " (searched " }

  /** The interests tool's reply holds every topic it reports, in title case. */
  lemma InterestsReportListsTopics(items: seq<Database.InterestItem>, i: nat)
    requires i < |items|
    ensures Contains(InterestsReport(items), TopicText(items[i]))
  {
    forall j | 0 <= j < |items| ensures Contains(InterestLine(j + 1, items[j]), TopicText(items[j])) {
      var t := items[j];
      assert InterestLine(j + 1, t) == [] + TopicText(t) + (IntToString(t.score) + " times)\n");
      ContainsConcat([], TopicText(t), IntToString(t.score) + " times)\n");
    }
    LinesContain(items, InterestLine, TopicText, i);
    ContainsRight(InterestsHeader, Lines(items, InterestLine), TopicText(items[i]));
  }

  /** What the summary tool returns for a summary. */
  function SummaryReply(summary: string): string {
    SummaryMarker + "\n" + summary
  }

  /** `_extract_summary_from_response`: the text between the first marker and the next one, stripped. */
  function ExtractSummary(response: string): (r: string)
    ensures !Contains(response, SummaryMarker) ==> r == ""
    ensures r == [] || (!IsSpace(r[0]) && !IsSpace(r[|r| - 1]))
  {
    if Contains(response, SummaryMarker) then
      StripTrimmed(SecondPart(response, SummaryMarker));
      Strip(SecondPart(response, SummaryMarker))
    else ""
  }

  /** The summary the tool returned reads back from the reply, stripped, when it does not hold the marker itself. */
  lemma ExtractSummaryOfReply(summary: string)
    requires !Contains(summary, SummaryMarker)
    ensures ExtractSummary(SummaryReply(summary)) == Strip(summary)
  {
    NotContainsCons('\n', summary, SummaryMarker);
    SummaryReplyShape(summary);
    SecondPartOfStart(SummaryMarker, "\n" + summary);
    StripNewline(summary);
  }

  lemma SummaryReplyShape(summary: string)
    ensures SummaryReply(summary) == SummaryMarker + ("\n" + summary)
  {
  }

  lemma StripNewline(s: string)
    ensures Strip("\n" + s) == Strip(s)
  {
    assert IsSpace('\n');
    assert ("\n" + s)[1..] == s;
  }

  /** `_extract_papers_from_response`: no structured data is taken from the reply. */
  function ExtractPapers(response: string): seq<Api.Paper> { [] }

  // ---------------------------------------------------------------------------
  // Conversation
  // ---------------------------------------------------------------------------

  /** An entry of `conversation_memory`. */
  datatype Turn = Turn(role: string, message: string)

  /** What `agent_executor.invoke` does: raises with a message, or gives the model's final output. */
  datatype AgentOutcome = Raised(detail: string) | Output(text: string)

  /** The dictionary `process_message` returns. */
  datatype Reply =
    | AgentReply(response: string, functionCalls: seq<string>, papers: Option<seq<Api.Paper>>, summary: Option<string>)
    | ErrorReply(response: string)

  /** The message handed to the model. */
  function EnhancedMessage(userId: string, message: string): string {
    "User ID: " + userId + "\nMessage: " + message
  }

  /** The first line of the enhanced message names the user, and the rest of it is the message. */
  lemma EnhancedMessageLines(userId: string, message: string)
    requires '\n' !in userId
    ensures SplitOn(EnhancedMessage(userId, message), '\n') == ["User ID: " + userId] + SplitOn("Message: " + message, '\n')
  {
    assert EnhancedMessage(userId, message) == ("User ID: " + userId) + ['\n'] + ("Message: " + message);
    SplitOnFirst("User ID: " + userId, '\n', "Message: " + message);
  }

  /** `_run_agent` once the model has answered with `output`. */
  function AgentResponse(output: string): (r: Reply)
    ensures r.AgentReply? && r.response == output && r.functionCalls == []
    ensures r.papers.Some? <==> Contains(output, PapersMarker)
    ensures r.summary.Some? <==> Contains(output, SummaryMarker)
  {
    AgentReply(output, [],
               if Contains(output, PapersMarker) then Some(ExtractPapers(output)) else None,
               if Contains(output, SummaryMarker) then Some(ExtractSummary(output)) else None)
  }

  /** A reply that passes on the search tool's text is seen to hold papers. */
  lemma AgentResponseOfSearch(papers: seq<Api.Paper>)
    ensures AgentResponse(SearchReport(papers)).papers == Some([])
  {
    SearchReportShape(papers);
    ContainsStart(PapersMarker, "\n" + Lines(papers, PaperEntry));
  }

  lemma SearchReportShape(papers: seq<Api.Paper>)
    ensures SearchReport(papers) == PapersMarker + ("\n" + Lines(papers, PaperEntry))
  {
  }

  /** A reply that passes on the summary tool's text carries the summary, stripped. */
  lemma AgentResponseOfSummary(summary: string)
    requires !Contains(summary, SummaryMarker)
    ensures AgentResponse(SummaryReply(summary)).summary == Some(Strip(summary))
  {
    SummaryReplyShape(summary);
    ContainsStart(SummaryMarker, "\n" + summary);
    ExtractSummaryOfReply(summary);
  }

  function TurnsOf(memory: map<string, seq<Turn>>, userId: string): seq<Turn> {
    if userId in memory then memory[userId] else []
  }

  // ---------------------------------------------------------------------------
  // What the search tool writes
  // ---------------------------------------------------------------------------

  /** The papers table after `cache_paper` for each paper in turn. */
  function CacheAll(rows: seq<Database.PaperRow>, papers: seq<Api.Paper>, now: int): seq<Database.PaperRow> {
    if papers == [] then rows
    else Database.UpsertPaper(CacheAll(rows, papers[..|papers| - 1], now), Api.PaperDataOf(papers[|papers| - 1]), now)
  }

  /** After caching, paper ids are still unique. */
  lemma {:induction false} CacheAllUnique(rows: seq<Database.PaperRow>, papers: seq<Api.Paper>, now: int)
    requires Database.UniqueBy(rows, Database.PaperKey)
    ensures Database.UniqueBy(CacheAll(rows, papers, now), Database.PaperKey)
  {
    if papers != [] {
      var init := papers[..|papers| - 1];
      CacheAllUnique(rows, init, now);
      Database.UpsertPaperStores(CacheAll(rows, init, now), Api.PaperDataOf(papers[|papers| - 1]), now);
    }
  }

  /** After caching, every paper found is in the cache. */
  lemma {:induction false} CacheAllHas(rows: seq<Database.PaperRow>, papers: seq<Api.Paper>, now: int, i: nat)
    requires Database.UniqueBy(rows, Database.PaperKey) && i < |papers|
    ensures Database.RowWithKey(CacheAll(rows, papers, now), Database.PaperKey, papers[i].id).Some?
  {
    var init, last := papers[..|papers| - 1], papers[|papers| - 1];
    var mid := CacheAll(rows, init, now);
    CacheAllUnique(rows, init, now);
    assert Api.PaperDataOf(last).id.GetOr("") == last.id;
    if papers[i].id == last.id {
      Database.UpsertPaperStores(mid, Api.PaperDataOf(last), now);
    } else {
      assert init[i] == papers[i];
      CacheAllHas(rows, init, now, i);
      Database.UpsertPaperOther(mid, Api.PaperDataOf(last), now, papers[i].id);
    }
  }

  /** Caching leaves the papers whose ids were not found as they were. */
  lemma {:induction false} CacheAllKeeps(rows: seq<Database.PaperRow>, papers: seq<Api.Paper>, now: int, k: string)
    requires Database.UniqueBy(rows, Database.PaperKey)
    requires forall i :: 0 <= i < |papers| ==> papers[i].id != k
    ensures Database.RowWithKey(CacheAll(rows, papers, now), Database.PaperKey, k) == Database.RowWithKey(rows, Database.PaperKey, k)
  {
    if papers != [] {
      var init, last := papers[..|papers| - 1], papers[|papers| - 1];
      CacheAllUnique(rows, init, now);
      CacheAllKeeps(rows, init, now, k);
      assert Api.PaperDataOf(last).id.GetOr("") == last.id;
      Database.UpsertPaperOther(CacheAll(rows, init, now), Api.PaperDataOf(last), now, k);
    }
  }

  /** The interests table after `update_user_interest(userId, t)` for each topic `t` in turn. */
  function UpsertAll(rows: seq<Database.InterestRow>, userId: string, topics: seq<string>, now: int): seq<Database.InterestRow> {
    if topics == [] then rows
    else Database.UpsertInterest(UpsertAll(rows, userId, topics[..|topics| - 1], now), userId, Lower(topics[|topics| - 1]), now)
  }

  /** The score stored for (user, topic), 0 when there is none. */
  function ScoreOf(rows: seq<Database.InterestRow>, userId: string, topic: string): int {
    match Database.RowWithKey(rows, Database.InterestKey, (userId, topic))
    case None => 0
    case Some(row) => row.score
  }

  /**
   * After the updates for lower-case topics, (user, topic) pairs are still
   * unique and every topic's score has grown by the number of times it was
   * named; the topics of other users and topics not named are unchanged.
   */
  lemma {:induction false} UpsertAllSpec(rows: seq<Database.InterestRow>, userId: string, topics: seq<string>, now: int)
    requires Database.UniqueBy(rows, Database.InterestKey)
    requires forall i :: 0 <= i < |topics| ==> IsLowerCase(topics[i])
    ensures Database.UniqueBy(UpsertAll(rows, userId, topics, now), Database.InterestKey)
    ensures forall t :: ScoreOf(UpsertAll(rows, userId, topics, now), userId, t) == ScoreOf(rows, userId, t) + multiset(topics)[t]
    ensures forall k: (string, string) :: k.0 != userId || k.1 !in topics ==>
      Database.RowWithKey(UpsertAll(rows, userId, topics, now), Database.InterestKey, k) == Database.RowWithKey(rows, Database.InterestKey, k)
  {
    if topics != [] {
      var init, last := topics[..|topics| - 1], topics[|topics| - 1];
      assert topics == init + [last];
      var mid := UpsertAll(rows, userId, init, now);
      UpsertAllSpec(rows, userId, init, now);
      LowerOfLowerCase(last);
      Database.UpsertInterestSpec(mid, userId, last, now);
      var after := UpsertAll(rows, userId, topics, now);
      forall t ensures ScoreOf(after, userId, t) == ScoreOf(rows, userId, t) + multiset(topics)[t] {
        assert multiset(topics)[t] == multiset(init)[t] + (if t == last then 1 else 0);
      }
    }
  }

  // ---------------------------------------------------------------------------
  // Building the reports
  // ---------------------------------------------------------------------------

  /** A report on one more element is the report so far followed by that element's line. */
  lemma ReportStep<T>(header: string, xs: seq<T>, line: (nat, T) -> string, i: nat)
    requires i < |xs|
    ensures header + Lines(xs[..i + 1], line) == header + Lines(xs[..i], line) + line(i + 1, xs[i])
  {
    assert xs[..i + 1][..i] == xs[..i];
  }

  /** The loop that formats the search tool's reply. */
  method FormatPapers(papers: seq<Api.Paper>) returns (text: string)
    ensures text == SearchReport(papers)
  {
    text := PapersMarker + "\n";
    for i := 0 to |papers|
      invariant text == PapersMarker + "\n" + Lines(papers[..i], PaperEntry)
    {
      ReportStep(PapersMarker + "\n", papers, PaperEntry, i);
      text := text + PaperEntry(i + 1, papers[i]);
    }
    assert papers[..|papers|] == papers;
  }

  /** The loop that formats the history tool's reply. */
  method FormatHistory(items: seq<Database.HistoryItem>, timestampText: int -> string) returns (text: string)
    ensures text == HistoryReport(items, timestampText)
  {
    text := HistoryHeader;
    for i := 0 to |items|
      invariant text == HistoryReport(items[..i], timestampText)
    {
      assert items[..i + 1][..i] == items[..i];
      text := text + HistoryLine(items[i], timestampText);
    }
    assert items[..|items|] == items;
  }

  /** The loop that formats the interests tool's reply. */
  method FormatInterests(items: seq<Database.InterestItem>) returns (text: string)
    ensures text == InterestsReport(items)
  {
    text := InterestsHeader;
    for i := 0 to |items|
      invariant text == InterestsHeader + Lines(items[..i], InterestLine)
    {
      ReportStep(InterestsHeader, items, InterestLine, i);
      text := text + InterestLine(i + 1, items[i]);
    }
    assert items[..|items|] == items;
  }

  // ---------------------------------------------------------------------------
  // The agent
  // ---------------------------------------------------------------------------

  class AcademicTutorAgent {
    const db: Database.DatabaseManager
    const api: Api.AcademicAPIClient
    /** The language model with its tools: given the enhanced message, it raises or answers. */
    const invokeAgent: string -> AgentOutcome
    /** How a stored timestamp reads as text. */
    const timestampText: int -> string
    var conversationMemory: map<string, seq<Turn>>

    constructor (db: Database.DatabaseManager, api: Api.AcademicAPIClient, invokeAgent: string -> AgentOutcome,
                 timestampText: int -> string)
      ensures this.db == db && this.api == api && this.invokeAgent == invokeAgent && this.timestampText == timestampText
      ensures conversationMemory == map[]
    {
      this.db := db;
      this.api := api;
      this.invokeAgent := invokeAgent;
      this.timestampText := timestampText;
      conversationMemory := map[];
    }

    /**
     * `process_message`: the user's turn is remembered first; when the model
     * answers, its answer is remembered and logged, and the reply is built
     * from it; when it raises, the reply carries the error and nothing is logged.
     */
    method ProcessMessage(userId: string, message: string) returns (reply: Reply)
      requires db.Valid()
      modifies this`conversationMemory, db`chatSessions
      ensures db.Valid()
      ensures var prior := TurnsOf(old(conversationMemory), userId);
        match invokeAgent(EnhancedMessage(userId, message))
        case Raised(detail) =>
          && reply == ErrorReply("I encountered an error: " + detail)
          && conversationMemory == old(conversationMemory)[userId := prior + [Turn("user", message)]]
          && db.chatSessions == old(db.chatSessions)
        case Output(text) =>
          && reply == AgentResponse(text)
          && conversationMemory == old(conversationMemory)[userId := prior + [Turn("user", message), Turn("assistant", text)]]
          && db.chatSessions == old(db.chatSessions) + [Database.ChatRow(userId, message, text, Json.EncodeStringList([]), db.clock)]
    {
      var prior := TurnsOf(conversationMemory, userId);
      conversationMemory := conversationMemory[userId := prior + [Turn("user", message)]];
      var outcome := invokeAgent(EnhancedMessage(userId, message));
      match outcome
      case Raised(detail) =>
        reply := ErrorReply("I encountered an error: " + detail);
      case Output(text) =>
        reply := AgentResponse(text);
        conversationMemory := conversationMemory[userId := conversationMemory[userId] + [Turn("assistant", text)]];
        assert prior + [Turn("user", message)] + [Turn("assistant", text)] == prior + [Turn("user", message), Turn("assistant", text)];
        db.LogChatSession(userId, message, text, Some(reply.functionCalls));
    }

    /** The papers `search_papers(query, year=year)` gives for a parsed tool input. */
    ghost function Found(input: SearchInput): seq<Api.Paper> {
      api.SearchResult(input.query, input.year, SearchLimit)
    }

    /**
     * `_search_academic_papers(query_input)`: an empty result changes nothing;
     * otherwise every paper is cached, the search is logged for the default
     * user, each topic of the query is counted once more as that user's
     * interest, and the reply lists the papers.
     */
    method SearchTool(queryInput: string) returns (reply: string)
      requires db.Valid()
      modifies db`cachedPapers, db`searchHistory, db`userInterests, api`feedFetches
      ensures db.Valid()
      ensures var input := ParseSearchInput(queryInput);
        var papers := Found(input);
        if papers == [] then
          && reply == NoPapers
          && db.cachedPapers == old(db.cachedPapers) && db.searchHistory == old(db.searchHistory)
          && db.userInterests == old(db.userInterests)
        else
          && reply == SearchReport(papers)
          && db.cachedPapers == CacheAll(old(db.cachedPapers), papers, db.clock)
          && db.searchHistory == old(db.searchHistory) + [Database.SearchRow(DefaultUser, input.query, "academic", db.clock)]
          && db.userInterests == UpsertAll(old(db.userInterests), DefaultUser, Topics(input.query), db.clock)
    {
      var input := ParseSearchInput(queryInput);
      var papers := api.SearchPapers(input.query, input.year);
      if papers == [] {
        return NoPapers;
      }
      RecordSearch(input.query, papers);
      reply := FormatPapers(papers);
    }

    /** What a search that found papers writes: the papers, the search and the query's topics. */
    method RecordSearch(query: string, papers: seq<Api.Paper>)
      requires db.Valid()
      modifies db`cachedPapers, db`searchHistory, db`userInterests
      ensures db.Valid()
      ensures db.cachedPapers == CacheAll(old(db.cachedPapers), papers, db.clock)
      ensures db.searchHistory == old(db.searchHistory) + [Database.SearchRow(DefaultUser, query, "academic", db.clock)]
      ensures db.userInterests == UpsertAll(old(db.userInterests), DefaultUser, Topics(query), db.clock)
    {
      CacheEach(papers);
      db.LogSearch(DefaultUser, query);
      TrackTopics(DefaultUser, Topics(query));
    }

    /** The loop `for paper in papers: cache_paper(paper)`. */
    method CacheEach(papers: seq<Api.Paper>)
      requires db.Valid()
      modifies db`cachedPapers
      ensures db.Valid()
      ensures db.cachedPapers == CacheAll(old(db.cachedPapers), papers, db.clock)
    {
      for i := 0 to |papers|
        invariant db.Valid()
        invariant db.cachedPapers == CacheAll(old(db.cachedPapers), papers[..i], db.clock)
      {
        assert papers[..i + 1][..i] == papers[..i];
        db.CachePaper(Api.PaperDataOf(papers[i]));
      }
      assert papers[..|papers|] == papers;
    }

    /** The loop `for topic in topics: update_user_interest(user_id, topic)`. */
    method TrackTopics(userId: string, topics: seq<string>)
      requires db.Valid()
      modifies db`userInterests
      ensures db.Valid()
      ensures db.userInterests == UpsertAll(old(db.userInterests), userId, topics, db.clock)
    {
      for i := 0 to |topics|
        invariant db.Valid()
        invariant db.userInterests == UpsertAll(old(db.userInterests), userId, topics[..i], db.clock)
      {
        assert topics[..i + 1][..i] == topics[..i];
        db.UpdateUserInterest(userId, topics[i]);
      }
      assert topics[..|topics|] == topics;
    }

    /**
     * `_generate_paper_summary(paper_id)`: a non-empty stored summary is
     * returned as it is; otherwise a paper with a non-empty abstract gets one
     * summariser call, whose summary is stored and returned; any other paper,
     * or no paper, gets the not-in-cache text.
     */
    method SummaryTool(paperId: string) returns (reply: string)
      requires db.Valid()
      modifies db`cachedPapers, api`summaryCalls
      ensures db.Valid()
      ensures var cached := old(db.GetCachedPaper(paperId));
        if cached.Some? && cached.value.summary.GetOr("") != [] then
          && reply == SummaryReply(cached.value.summary.value)
          && db.cachedPapers == old(db.cachedPapers) && api.summaryCalls == old(api.summaryCalls)
        else if cached.Some? && cached.value.abstractText != [] then
          var summary := api.summarize(cached.value.title, cached.value.abstractText, old(api.summaryCalls));
          && reply == SummaryReply(summary)
          && db.cachedPapers == Database.WithSummary(old(db.cachedPapers), paperId, summary)
          && api.summaryCalls == old(api.summaryCalls) + 1
          && db.GetCachedPaper(paperId) == Some(cached.value.(summary := Some(summary)))
        else
          && reply == NotInCache
          && db.cachedPapers == old(db.cachedPapers) && api.summaryCalls == old(api.summaryCalls)
    {
      var cached := db.GetCachedPaper(paperId);
      if cached.Some? && cached.value.summary.GetOr("") != [] {
        return SummaryReply(cached.value.summary.value);
      }
      if cached.Some? && cached.value.abstractText != [] {
        var summary := api.GenerateSummary(cached.value.title, cached.value.abstractText);
        ghost var before := db.cachedPapers;
        db.SavePaperSummary(paperId, summary);
        Database.SaveSummarySpec(before, paperId, summary, paperId);
        return SummaryReply(summary);
      }
      return NotInCache;
    }

    /**
     * Unless the summariser produced an empty summary, asking for the same
     * summary twice gives the same text and calls the summariser at most
     * once: the second request is served from the cache. An empty summary is
     * stored but read as none, so the second request calls it again.
     */
    method SummaryToolTwice(paperId: string) returns (first: string, second: string)
      requires db.Valid()
      modifies db`cachedPapers, api`summaryCalls
      ensures db.Valid()
      ensures first != SummaryReply("") ==> second == first && api.summaryCalls <= old(api.summaryCalls) + 1
      ensures first == SummaryReply("") ==> api.summaryCalls == old(api.summaryCalls) + 2
    {
      first := SummaryTool(paperId);
      second := SummaryTool(paperId);
    }

    /** `_get_user_search_history(user_id)`: the user's ten latest searches, or the no-history text. */
    method HistoryTool(userId: string) returns (reply: string, ghost items: seq<Database.HistoryItem>)
      ensures Ordering.IsTopRows(items, Database.UserHistory(db.searchHistory, userId), Database.HistoryKey, HistoryLimit)
      ensures reply == if items == [] then NoHistory else HistoryReport(items, timestampText)
    {
      var history := db.GetUserSearchHistory(userId, HistoryLimit);
      items := history;
      if history == [] {
        return NoHistory, items;
      }
      reply := FormatHistory(history, timestampText);
    }

    /** `_get_user_interests(user_id)`: the user's ten strongest interests, or the no-interests text. */
    method InterestsTool(userId: string) returns (reply: string, ghost items: seq<Database.InterestItem>)
      ensures Ordering.IsTopRows(items, Database.UserInterests(db.userInterests, userId), Database.InterestOrder, 10)
      ensures reply == if items == [] then NoInterests else InterestsReport(items)
    {
      var interests := db.GetUserInterests(userId);
      items := interests;
      if interests == [] {
        return NoInterests, items;
      }
      reply := FormatInterests(interests);
    }
  }
}
