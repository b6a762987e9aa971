/**
 * The arXiv side of the assistant (`AcademicAPIClient`): finding a cached
 * paper's arXiv id, downloading its PDF into a directory, building the arXiv
 * search query and turning the entries of the Atom feed into paper records.
 * The network, the file system, md5, the XML parser and the summariser are
 * inputs: functions given to the client, and a map from path to file size.
 */
module ApiIntegrations {
  import opened Wrappers
  import opened Text
  import Database

  // ---------------------------------------------------------------------------
  // The arXiv id of a cached paper
  // ---------------------------------------------------------------------------

  const AbsMarker: string := "arxiv.org/abs/"
  const ExportMarker: string := "export.arxiv.org/abs/"

  /** A character of the regex class `[^/?]`. */
  predicate IdChar(c: char) { c != '/' && c != '?' }

  /** The longest run of `[^/?]` characters at the start of `s`. */
  function IdRun(s: string): (r: string)
    ensures |r| <= |s| && r == s[..|r|]
    ensures forall i :: 0 <= i < |r| ==> IdChar(r[i])
    ensures |r| < |s| ==> !IdChar(s[|r|])
  {
    if s != [] && IdChar(s[0]) then [s[0]] + IdRun(s[1..]) else []
  }

  /** The regex `marker([^/?]+)` matches at position `i` of `url`. */
  predicate MatchAt(url: string, marker: string, i: nat) {
    i + |marker| < |url| && OccursAt(url, marker, i) && IdChar(url[i + |marker|])
  }

  /** The leftmost position from `from` on where `marker([^/?]+)` matches. */
  function FirstMatch(url: string, marker: string, from: nat): (r: Option<nat>)
    requires from <= |url|
    ensures r.Some? ==> from <= r.value && MatchAt(url, marker, r.value)
    ensures r.Some? ==> forall k: nat :: from <= k < r.value ==> !MatchAt(url, marker, k)
    ensures r.None? ==> forall k: nat :: from <= k ==> !MatchAt(url, marker, k)
    decreases |url| - from
  {
    if from + |marker| >= |url| then None
    else if MatchAt(url, marker, from) then Some(from)
    else FirstMatch(url, marker, from + 1)
  }

  /** `re.search(marker + '([^/?]+)', url).group(1)`. */
  function SearchId(url: string, marker: string): (r: Option<string>)
    ensures r.Some? ==> r.value != [] && forall i :: 0 <= i < |r.value| ==> IdChar(r.value[i])
  {
    match FirstMatch(url, marker, 0)
    case None => None
    case Some(i) => Some(IdRun(url[i + |marker|..]))
  }

  /** The id taken from a paper URL: the first of the two patterns that matches. */
  function ArxivIdFromUrl(url: string): (r: Option<string>)
    ensures r.Some? ==> r.value != [] && forall i :: 0 <= i < |r.value| ==> IdChar(r.value[i])
  {
    match SearchId(url, AbsMarker)
    case Some(id) => Some(id)
    case None => SearchId(url, ExportMarker)
  }

  /** `_get_arxiv_id_from_paper_id`: None when the paper is not cached, its URL is empty or no pattern matches. */
  function ArxivIdOf(papers: seq<Database.PaperRow>, paperId: string): (r: Option<string>)
    ensures r.Some? ==> r.value != [] && '/' !in r.value && '?' !in r.value
  {
    match Database.RowWithKey(papers, Database.PaperKey, paperId)
    case None => None
    case Some(row) => if row.url == [] then None else ArxivIdFromUrl(row.url)
  }

  /**
   * The second pattern never decides: wherever `export.arxiv.org/abs/` is
   * followed by an id character, so is the `arxiv.org/abs/` inside it.
   */
  lemma ExportPatternSubsumed(url: string)
    requires SearchId(url, ExportMarker).Some?
    ensures SearchId(url, AbsMarker).Some?
  {
    var i := FirstMatch(url, ExportMarker, 0).value;
    var j := i + 7;
    assert url[j..j + |AbsMarker|] == url[i..i + |ExportMarker|][7..];
    assert MatchAt(url, AbsMarker, j);
  }

  /** No id is found in a URL exactly when `arxiv.org/abs/` is followed by an id character nowhere. */
  lemma ArxivIdFromUrlNone(url: string)
    ensures ArxivIdFromUrl(url).None? <==> forall k: nat :: !MatchAt(url, AbsMarker, k)
  {
    if SearchId(url, ExportMarker).Some? {
      ExportPatternSubsumed(url);
    }
  }

  /** The id found is the run of `[^/?]` characters after the leftmost `arxiv.org/abs/` that has one. */
  lemma ArxivIdFromUrlAt(url: string, i: nat)
    requires MatchAt(url, AbsMarker, i)
    requires forall k: nat :: k < i ==> !MatchAt(url, AbsMarker, k)
    ensures ArxivIdFromUrl(url) == Some(IdRun(url[i + |AbsMarker|..]))
  {
    FirstMatchIs(url, AbsMarker, 0, i);
  }

  /** The lookup gives None exactly when the paper is not cached, its URL is empty, or no id follows `arxiv.org/abs/`. */
  lemma ArxivIdOfNone(papers: seq<Database.PaperRow>, paperId: string)
    ensures ArxivIdOf(papers, paperId).None? <==>
      || Database.RowWithKey(papers, Database.PaperKey, paperId).None?
      || Database.RowWithKey(papers, Database.PaperKey, paperId).value.url == []
      || forall k: nat :: !MatchAt(Database.RowWithKey(papers, Database.PaperKey, paperId).value.url, AbsMarker, k)
  {
    var row := Database.RowWithKey(papers, Database.PaperKey, paperId);
    if row.Some? {
      ArxivIdFromUrlNone(row.value.url);
    }
  }

  /** For a cached paper, the id is the run after the leftmost `arxiv.org/abs/` of its URL that has one. */
  lemma ArxivIdOfAt(papers: seq<Database.PaperRow>, paperId: string, i: nat)
    requires Database.RowWithKey(papers, Database.PaperKey, paperId).Some?
    requires var url := Database.RowWithKey(papers, Database.PaperKey, paperId).value.url;
      && MatchAt(url, AbsMarker, i) && forall k: nat :: k < i ==> !MatchAt(url, AbsMarker, k)
    ensures var url := Database.RowWithKey(papers, Database.PaperKey, paperId).value.url;
      ArxivIdOf(papers, paperId) == Some(IdRun(url[i + |AbsMarker|..]))
  {
    ArxivIdFromUrlAt(Database.RowWithKey(papers, Database.PaperKey, paperId).value.url, i);
  }

  /** A match with none before it is the leftmost. */
  lemma FirstMatchIs(url: string, marker: string, from: nat, j: nat)
    requires from <= j && MatchAt(url, marker, j)
    requires forall k: nat :: from <= k < j ==> !MatchAt(url, marker, k)
    ensures FirstMatch(url, marker, from) == Some(j)
  {
  }

  /**
   * An id with a '/' in it, such as the old-style `hep-th/9901001`, is cut at
   * its '/': what is found is the part before it alone.
   */
  lemma AbsIdStopsAtSlash(a: string, b: string)
    requires a != [] && forall i :: 0 <= i < |a| ==> IdChar(a[i])
    ensures ArxivIdFromUrl("https://arxiv.org/abs/" + a + "/" + b) == Some(a)
  {
    var url := "https://arxiv.org/abs/" + a + "/" + b;
    var tail := a + ("/" + b);
    assert url == "https://" + AbsMarker + tail;
    assert url[8..22] == AbsMarker;
    assert url[22..] == tail;
    forall k: nat | k < 8 ensures !MatchAt(url, AbsMarker, k) {
      assert url[k] != AbsMarker[0];
    }
    ArxivIdFromUrlAt(url, 8);
    IdRunStops(a, "/" + b);
  }

  /** `https://arxiv.org/abs/hep-th/9901001v1`, the URL an old-style id is cached under. */
  const OldStyleUrl: string := "https://arxiv.org/abs/" + "hep-th" + "/" + "9901001v1"

  /** The URL of an old-style id: the lookup finds `hep-th`. */
  lemma OldStyleId()
    ensures ArxivIdFromUrl(OldStyleUrl) == Some("hep-th")
  {
    AbsIdStopsAtSlash("hep-th", "9901001v1");
  }

  /** The run stops at the first character outside `[^/?]`. */
  lemma {:induction false} IdRunStops(a: string, b: string)
    requires forall i :: 0 <= i < |a| ==> IdChar(a[i])
    requires b != [] && !IdChar(b[0])
    ensures IdRun(a + b) == a
  {
    if a != [] {
      assert (a + b)[1..] == a[1..] + b;
      IdRunStops(a[1..], b);
    } else {
      assert a + b == b;
    }
  }

  // ---------------------------------------------------------------------------
  // Where the PDF comes from and where it goes
  // ---------------------------------------------------------------------------

  function PdfUrl(arxivId: string): string {
    "https://arxiv.org/pdf/" + arxivId + ".pdf"
  }

  /** The id with '/' and ':' replaced by '_', and ".pdf" appended. */
  function SafeFilename(arxivId: string): (r: string)
    ensures |r| == |arxivId| + 4 && r[|arxivId|..] == ".pdf"
    ensures '/' !in r && ':' !in r
    ensures forall i :: 0 <= i < |arxivId| ==>
      r[i] == if arxivId[i] == '/' || arxivId[i] == ':' then '_' else arxivId[i]
  {
    ReplaceChar(ReplaceChar(arxivId, '/', '_'), ':', '_') + ".pdf"
  }

  /** POSIX `os.path.join(dir, name)` for two components. */
  function JoinPath(dir: string, name: string): (r: string)
    ensures name != [] && name[0] != '/' ==> |name| <= |r| && r[|r| - |name|..] == name
  {
    if name != [] && name[0] == '/' then name
    else if dir == [] || dir[|dir| - 1] == '/' then dir + name
    else dir + "/" + name
  }

  /** The text `raise_for_status` raises for an error status, or None for a status below 400 or above 599. */
  function HttpErrorText(status: int, reason: string, url: string): (r: Option<string>)
    ensures r.Some? <==> 400 <= status < 600
  {
    if 400 <= status < 500 then Some(IntToString(status) + " Client Error: " + reason + " for url: " + url)
    else if 500 <= status < 600 then Some(IntToString(status) + " Server Error: " + reason + " for url: " + url)
    else None
  }

  /** What `requests.get(pdf_url, stream=True, timeout=60)` gives. */
  datatype PdfResponse =
    | PdfTimeout
    | PdfRequestError(message: string)
      /** `chunks` are the sizes `iter_content` yields; `streamError` is raised after them, if any. */
    | PdfReply(status: int, reason: string, contentType: Option<string>, chunks: seq<nat>, streamError: Option<string>)

  /** The dictionary `download_paper` returns. */
  datatype DownloadResult =
    | DownloadFailed(error: string, paperId: string)
    | Downloaded(filePath: string, fileSize: nat, arxivId: string, paperId: string, downloadUrl: string, alreadyExisted: bool)

  const NoArxivId: string := "Could not find arXiv ID for this paper. Make sure the paper is from arXiv."
  const TimedOut: string := "Download timed out. The paper might be large or the server is slow."
  const HtmlReceived: string := "Paper not available for download (received HTML instead of PDF)"
  const TooSmall: string := "Downloaded file appears to be invalid (too small)"
  const MinPdfSize: nat := 1024

  function Sum(chunks: seq<nat>): nat {
    if chunks == [] then 0 else Sum(chunks[..|chunks| - 1]) + chunks[|chunks| - 1]
  }

  /** The result of `download_paper`, the files afterwards, and whether the PDF was requested. */
  datatype DownloadStep = DownloadStep(result: DownloadResult, files: map<string, nat>, fetched: bool)

  /**
   * What the response to the PDF request leads to: its status, its content
   * type, the chunks written to `path` (a broken stream leaves what was
   * written), and the size check, which removes a file that is too small.
   */
  function ResponseStep(paperId: string, arxivId: string, url: string, path: string,
                        files: map<string, nat>, response: PdfResponse): (r: DownloadStep)
    ensures r.fetched
    ensures r.result.paperId == paperId
    ensures r.result.Downloaded? ==>
      && r.result == Downloaded(path, r.result.fileSize, arxivId, paperId, url, false)
      && path in r.files && r.files[path] == r.result.fileSize >= MinPdfSize
    ensures r.files.Keys <= files.Keys + {path}
    ensures forall p :: p in files && p != path ==> p in r.files && r.files[p] == files[p]
  {
    match response
    case PdfTimeout => DownloadStep(DownloadFailed(TimedOut, paperId), files, true)
    case PdfRequestError(m) => DownloadStep(DownloadFailed("Download failed: " + m, paperId), files, true)
    case PdfReply(status, reason, contentType, chunks, streamError) =>
      match HttpErrorText(status, reason, url)
      case Some(m) => DownloadStep(DownloadFailed("Download failed: " + m, paperId), files, true)
      case None =>
        if Contains(Lower(contentType.GetOr("")), "html") then
          DownloadStep(DownloadFailed(HtmlReceived, paperId), files, true)
        else
          var written := files[path := Sum(chunks)];
          if streamError.Some? then
            DownloadStep(DownloadFailed("Download failed: " + streamError.value, paperId), written, true)
          else if Sum(chunks) < MinPdfSize then
            DownloadStep(DownloadFailed(TooSmall, paperId), written - {path}, true)
          else DownloadStep(Downloaded(path, Sum(chunks), arxivId, paperId, url, false), written, true)
  }

  /** Where the PDF of the paper with arXiv id `arxivId` is stored in `dir`. */
  function TargetPath(dir: string, arxivId: string): string {
    JoinPath(dir, SafeFilename(arxivId))
  }

  /** `download_paper` after the directory exists: no id, the file already there, or the request. */
  function DownloadOutcome(papers: seq<Database.PaperRow>, paperId: string, dir: string,
                           files: map<string, nat>, fetchPdf: string -> PdfResponse): (r: DownloadStep)
    ensures r.result.paperId == paperId
    ensures r.result.Downloaded? ==>
      && ArxivIdOf(papers, paperId) == Some(r.result.arxivId)
      && r.result.filePath == TargetPath(dir, r.result.arxivId)
      && r.result.downloadUrl == PdfUrl(r.result.arxivId)
      && r.result.filePath in r.files && r.files[r.result.filePath] == r.result.fileSize
    ensures r.result.Downloaded? && !r.result.alreadyExisted ==> r.result.fileSize >= MinPdfSize
  {
    match ArxivIdOf(papers, paperId)
    case None => DownloadStep(DownloadFailed(NoArxivId, paperId), files, false)
    case Some(id) =>
      var path := TargetPath(dir, id);
      if path in files then DownloadStep(Downloaded(path, files[path], id, paperId, PdfUrl(id), true), files, false)
      else ResponseStep(paperId, id, PdfUrl(id), path, files, fetchPdf(PdfUrl(id)))
  }

  /** A paper without a resolvable arXiv id fails with the fixed error, requests nothing and writes nothing. */
  lemma DownloadWithoutId(papers: seq<Database.PaperRow>, paperId: string, dir: string,
                          files: map<string, nat>, fetchPdf: string -> PdfResponse)
    requires ArxivIdOf(papers, paperId).None?
    ensures DownloadOutcome(papers, paperId, dir, files, fetchPdf) == DownloadStep(DownloadFailed(NoArxivId, paperId), files, false)
  {
  }

  /** A file already at the target path is reported with its size, and nothing is requested or written. */
  lemma DownloadExisting(papers: seq<Database.PaperRow>, paperId: string, dir: string,
                         files: map<string, nat>, fetchPdf: string -> PdfResponse)
    requires ArxivIdOf(papers, paperId).Some?
    requires TargetPath(dir, ArxivIdOf(papers, paperId).value) in files
    ensures var step := DownloadOutcome(papers, paperId, dir, files, fetchPdf);
      && step.result.Downloaded? && step.result.alreadyExisted
      && step.result.filePath == TargetPath(dir, ArxivIdOf(papers, paperId).value)
      && step.result.fileSize == files[step.result.filePath]
      && step.result.downloadUrl == PdfUrl(ArxivIdOf(papers, paperId).value)
      && step.files == files && !step.fetched
  {
  }

  /** The PDF is requested exactly when the id is known and no file is at the target path. */
  lemma DownloadFetches(papers: seq<Database.PaperRow>, paperId: string, dir: string,
                        files: map<string, nat>, fetchPdf: string -> PdfResponse)
    ensures DownloadOutcome(papers, paperId, dir, files, fetchPdf).fetched <==>
      ArxivIdOf(papers, paperId).Some? && TargetPath(dir, ArxivIdOf(papers, paperId).value) !in files
  {
  }

  /** A download that is not of an existing file leaves a file of at least 1024 bytes at the target path, of the size reported. */
  lemma {:induction false} DownloadFresh(papers: seq<Database.PaperRow>, paperId: string, dir: string,
                                         files: map<string, nat>, fetchPdf: string -> PdfResponse)
    requires var step := DownloadOutcome(papers, paperId, dir, files, fetchPdf);
      step.result.Downloaded? && !step.result.alreadyExisted
    ensures var step := DownloadOutcome(papers, paperId, dir, files, fetchPdf);
      && ArxivIdOf(papers, paperId) == Some(step.result.arxivId)
      && step.result.filePath == TargetPath(dir, step.result.arxivId)
      && step.result.downloadUrl == PdfUrl(step.result.arxivId)
      && step.result.fileSize >= MinPdfSize
      && step.files == files[step.result.filePath := step.result.fileSize]
  {
    var id := ArxivIdOf(papers, paperId).value;
    var url := PdfUrl(id);
    var response := fetchPdf(url);
    assert response.PdfReply?;
  }

  /** The files other than the target path are the same afterwards. */
  lemma DownloadKeepsOthers(papers: seq<Database.PaperRow>, paperId: string, dir: string,
                            files: map<string, nat>, fetchPdf: string -> PdfResponse, p: string)
    requires p in files
    requires ArxivIdOf(papers, paperId).None? || p != TargetPath(dir, ArxivIdOf(papers, paperId).value)
    ensures var step := DownloadOutcome(papers, paperId, dir, files, fetchPdf);
      p in step.files && step.files[p] == files[p]
  {
  }

  /** A complete PDF below 1024 bytes is removed again: the files are as before. */
  lemma DownloadTooSmall(papers: seq<Database.PaperRow>, paperId: string, dir: string,
                         files: map<string, nat>, fetchPdf: string -> PdfResponse)
    requires ArxivIdOf(papers, paperId).Some?
    requires var id := ArxivIdOf(papers, paperId).value;
      && TargetPath(dir, id) !in files
      && fetchPdf(PdfUrl(id)).PdfReply?
      && HttpErrorText(fetchPdf(PdfUrl(id)).status, fetchPdf(PdfUrl(id)).reason, PdfUrl(id)).None?
      && !Contains(Lower(fetchPdf(PdfUrl(id)).contentType.GetOr("")), "html")
      && fetchPdf(PdfUrl(id)).streamError.None?
      && Sum(fetchPdf(PdfUrl(id)).chunks) < MinPdfSize
    ensures DownloadOutcome(papers, paperId, dir, files, fetchPdf) == DownloadStep(DownloadFailed(TooSmall, paperId), files, true)
  {
    var id := ArxivIdOf(papers, paperId).value;
    var path := TargetPath(dir, id);
    var response := fetchPdf(PdfUrl(id));
    assert DownloadOutcome(papers, paperId, dir, files, fetchPdf) == ResponseStep(paperId, id, PdfUrl(id), path, files, response);
    ResponseTooSmall(paperId, id, PdfUrl(id), path, files, response);
  }

  lemma ResponseTooSmall(paperId: string, arxivId: string, url: string, path: string,
                         files: map<string, nat>, response: PdfResponse)
    requires path !in files && response.PdfReply?
    requires HttpErrorText(response.status, response.reason, url).None?
    requires !Contains(Lower(response.contentType.GetOr("")), "html")
    requires response.streamError.None? && Sum(response.chunks) < MinPdfSize
    ensures ResponseStep(paperId, arxivId, url, path, files, response) == DownloadStep(DownloadFailed(TooSmall, paperId), files, true)
  {
    assert files[path := Sum(response.chunks)] - {path} == files;
  }

  /** An HTML content type fails the download with nothing written. */
  lemma DownloadHtml(papers: seq<Database.PaperRow>, paperId: string, dir: string,
                     files: map<string, nat>, fetchPdf: string -> PdfResponse)
    requires ArxivIdOf(papers, paperId).Some?
    requires var id := ArxivIdOf(papers, paperId).value;
      && TargetPath(dir, id) !in files
      && fetchPdf(PdfUrl(id)).PdfReply?
      && HttpErrorText(fetchPdf(PdfUrl(id)).status, fetchPdf(PdfUrl(id)).reason, PdfUrl(id)).None?
      && Contains(Lower(fetchPdf(PdfUrl(id)).contentType.GetOr("")), "html")
    ensures DownloadOutcome(papers, paperId, dir, files, fetchPdf) == DownloadStep(DownloadFailed(HtmlReceived, paperId), files, true)
  {
  }

  // ---------------------------------------------------------------------------
  // The arXiv search
  // ---------------------------------------------------------------------------

  /** `search_query`: "all:" and the query, and a date filter exactly when a year is given. */
  function SearchQuery(query: string, year: Option<string>): (r: string)
    ensures 4 + |query| <= |r| && r[..4 + |query|] == "all:" + query
    ensures |r| > 4 + |query| <==> year.Some? && year.value != []
    ensures year.Some? && year.value != [] ==>
      r[4 + |query|..] == " AND submittedDate:[" + year.value + "0101 TO " + year.value + "1231]"
    ensures !(year.Some? && year.value != []) ==> r == "all:" + query
  {
    if year.Some? && year.value != [] then
      "all:" + query + " AND submittedDate:[" + year.value + "0101 TO " + year.value + "1231]"
    else "all:" + query
  }

  datatype ArxivRequest = ArxivRequest(baseUrl: string, searchQuery: string, start: int, maxResults: int,
                                       sortBy: string, sortOrder: string)

  function RequestFor(query: string, year: Option<string>, limit: int): ArxivRequest {
    ArxivRequest("http://export.arxiv.org/api/query", SearchQuery(query, year), 0, limit, "relevance", "descending")
  }

  /** An Atom child element: absent, present without text, or with text. */
  datatype Element = Absent | NoText | WithText(text: string)

  /** One `<entry>` of the feed; `authorNames` holds, per `<author>`, its `<name>` child. */
  datatype Entry = Entry(id: Element, title: Element, authorNames: seq<Element>, summary: Element, published: Element)

  /** What the request and the XML parser give: any timeout, request error, error status or parse error is `FeedFailed`. */
  datatype FeedOutcome = FeedFailed | Feed(entries: seq<Entry>)

  /** A paper record as `_arxiv_search` builds it. */
  datatype Paper = Paper(id: string, title: string, authors: seq<string>, year: int, abstractText: string,
                         url: string, searchQuery: string, arxivId: string)

  predicate IsLowerHex(c: char) { '0' <= c <= '9' || 'a' <= c <= 'f' }

  /** What `hashlib.md5(...).hexdigest()` returns: 32 lower-case hex digits. */
  type HexDigest = s: string | |s| == 32 && forall i :: 0 <= i < |s| ==> IsLowerHex(s[i])
    witness "00000000000000000000000000000000"

  /** The text `(.+)$` captures after a marker that starts at `j`: the rest, less one final newline, if non-empty without newlines. */
  function TailCapture(s: string, j: nat): (r: Option<string>)
    requires j <= |s|
    ensures r.Some? ==> r.value != [] && '\n' !in r.value
  {
    var rest := s[j..];
    var body := if rest != [] && rest[|rest| - 1] == '\n' then rest[..|rest| - 1] else rest;
    if body != [] && '\n' !in body then Some(body) else None
  }

  /** `arxiv\.org/abs/(.+)$` matches with the marker at position `k` of `s`. */
  predicate CaptureAt(s: string, k: nat) {
    k + |AbsMarker| <= |s| && OccursAt(s, AbsMarker, k) && TailCapture(s, k + |AbsMarker|).Some?
  }

  /** The leftmost position from `from` on where `re.search(r'arxiv\.org/abs/(.+)$', s)` matches. */
  function FirstCapture(s: string, from: nat): (r: Option<nat>)
    requires from <= |s|
    ensures r.Some? ==> from <= r.value && CaptureAt(s, r.value)
    ensures r.Some? ==> forall k: nat :: from <= k < r.value ==> !CaptureAt(s, k)
    ensures r.None? ==> forall k: nat :: from <= k ==> !CaptureAt(s, k)
    decreases |s| - from
  {
    if from + |AbsMarker| > |s| then None
    else if CaptureAt(s, from) then Some(from)
    else FirstCapture(s, from + 1)
  }

  /** The arXiv id of an entry: the capture after "arxiv.org/abs/", or else the last '/'-separated part. */
  function EntryArxivId(entryId: string): (r: string)
    ensures FirstCapture(entryId, 0).Some? ==> r != [] && '\n' !in r
    ensures FirstCapture(entryId, 0).None? ==>
      '/' !in r && |r| <= |entryId| && entryId[|entryId| - |r|..] == r
  {
    match FirstCapture(entryId, 0)
    case Some(k) => TailCapture(entryId, k + |AbsMarker|).value
    case None =>
      var parts := SplitOn(entryId, '/');
      SplitOnLast(entryId, '/');
      parts[|parts| - 1]
  }

  /** Where the pattern first matches, the id is what `(.+)$` captures there. */
  lemma EntryArxivIdAt(s: string, k: nat)
    requires CaptureAt(s, k) && forall j: nat :: j < k ==> !CaptureAt(s, j)
    ensures EntryArxivId(s) == TailCapture(s, k + |AbsMarker|).value
  {
    FirstCaptureIs(s, 0, k);
  }

  lemma FirstCaptureIs(s: string, from: nat, k: nat)
    requires from <= k && CaptureAt(s, k)
    requires forall j: nat :: from <= j < k ==> !CaptureAt(s, j)
    ensures FirstCapture(s, from) == Some(k)
  {
  }

  /** An entry id `p + "arxiv.org/abs/" + t` with a one-line `t`, and no earlier match, has the id `t`. */
  lemma EntryArxivIdAfterMarker(p: string, t: string)
    requires t != [] && '\n' !in t
    requires forall k: nat :: k < |p| ==> !CaptureAt(p + AbsMarker + t, k)
    ensures EntryArxivId(p + AbsMarker + t) == t
  {
    var s := p + AbsMarker + t;
    assert s[|p|..|p| + |AbsMarker|] == AbsMarker;
    assert s[|p| + |AbsMarker|..] == t;
    assert t[|t| - 1] in t;
    EntryArxivIdAt(s, |p|);
  }

  /** Without a match, the id is the text after the last '/', or the whole id when it has no '/'. */
  lemma EntryArxivIdFallback(s: string)
    requires forall k: nat :: !CaptureAt(s, k)
    ensures var r := EntryArxivId(s);
      && '/' !in r && |r| <= |s| && s[|s| - |r|..] == r
      && (|r| < |s| ==> s[|s| - |r| - 1] == '/')
  {
    SplitOnLast(s, '/');
  }

  /** `f"paper_{md5(arxiv_id)[:8]}"`. */
  function PaperIdFor(md5Hex: string -> HexDigest, arxivId: string): (r: string)
    ensures |r| == 14 && r[..6] == "paper_" && r[6..] == md5Hex(arxivId)[..8]
  {
    "paper_" + md5Hex(arxivId)[..8]
  }

  /** `text.strip().replace('\n', ' ')`. */
  function CleanText(t: string): (r: string)
    ensures '\n' !in r
  {
    ReplaceChar(Strip(t), '\n', ' ')
  }

  /** The year from the first four characters of `published`, 2023 when it is missing or not a number. */
  function PublishedYear(published: Element): (r: int)
    ensures !published.WithText? ==> r == 2023
    ensures published.WithText? && ParseInt(Prefix(published.text, 4)).None? ==> r == 2023
  {
    match published
    case WithText(t) => ParseInt(Prefix(t, 4)).GetOr(2023)
    case _ => 2023
  }

  /** The author names, in order: those `<author>`s whose `<name>` has text. */
  function AuthorList(names: seq<Element>): (r: seq<string>)
    ensures |r| <= |names|
    ensures forall i :: 0 <= i < |r| ==> exists j :: 0 <= j < |names| && names[j] == WithText(r[i])
    ensures forall j :: 0 <= j < |names| && names[j].WithText? ==> names[j].text in r
  {
    if names == [] then []
    else
      var init := names[..|names| - 1];
      var rest := AuthorList(init);
      assert forall j :: 0 <= j < |init| ==> init[j] == names[j];
      match names[|names| - 1]
      case WithText(n) => rest + [n]
      case _ => rest
  }

  /** A year of four digits at the start of `published` is read as such. */
  lemma PublishedYearOf(y: int, rest: string)
    requires 1000 <= y <= 9999
    ensures PublishedYear(WithText(NatToString(y) + rest)) == y
  {
    FourDigits(y);
    assert (NatToString(y) + rest)[..4] == NatToString(y);
    ParseIntToString(y);
  }

  lemma FourDigits(y: int)
    requires 1000 <= y <= 9999
    ensures |NatToString(y)| == 4
  {
    var a := y / 10;
    var b := a / 10;
    var c := b / 10;
    assert 1 <= c < 10 && 10 <= b < 100 && 100 <= a < 1000;
    assert |NatToString(c)| == 1;
    assert |NatToString(b)| == 2;
    assert |NatToString(a)| == 3;
  }

  /** One entry as a paper record, or None where the source raises (no id or title text, a summary without text). */
  function EntryToPaper(e: Entry, query: string, md5Hex: string -> HexDigest): (r: Option<Paper>)
    ensures r.Some? ==> e.id.WithText? && r.value.arxivId == EntryArxivId(e.id.text)
    ensures r.Some? ==> r.value.id == PaperIdFor(md5Hex, r.value.arxivId)
    ensures r.Some? ==> r.value.url == "https://arxiv.org/abs/" + r.value.arxivId && r.value.searchQuery == query
    ensures r.Some? ==> r.value.year == PublishedYear(e.published)
    ensures r.None? <==> !e.id.WithText? || !e.title.WithText? || e.summary.NoText?
  {
    match (e.id, e.title)
    case (WithText(entryId), WithText(title)) =>
      var abstractText :=
        match e.summary
        case Absent => Some("")
        case NoText => None
        case WithText(t) => Some(CleanText(t));
      if abstractText.None? then None
      else
        var arxivId := EntryArxivId(entryId);
        Some(Paper(PaperIdFor(md5Hex, arxivId), CleanText(title), AuthorList(e.authorNames), PublishedYear(e.published),
                   abstractText.value, "https://arxiv.org/abs/" + arxivId, query, arxivId))
    case _ => None
  }

  /** The records of the entries in order, or None when any entry raises. */
  function PapersOf(entries: seq<Entry>, query: string, md5Hex: string -> HexDigest): Option<seq<Paper>> {
    MapAll(entries, Converter(query, md5Hex))
  }

  /** The conversion of one entry, for a given query and md5. */
  function Converter(query: string, md5Hex: string -> HexDigest): Entry -> Option<Paper> {
    (e: Entry) => EntryToPaper(e, query, md5Hex)
  }

  /** `_arxiv_search` gives records exactly when every entry converts. */
  lemma PapersOfSome(entries: seq<Entry>, query: string, md5Hex: string -> HexDigest)
    ensures PapersOf(entries, query, md5Hex).Some? <==>
      forall i :: 0 <= i < |entries| ==> EntryToPaper(entries[i], query, md5Hex).Some?
  {
    MapAllSome(entries, Converter(query, md5Hex));
  }

  /** The records are those of the entries, one for one and in order. */
  lemma PapersOfRecords(entries: seq<Entry>, query: string, md5Hex: string -> HexDigest)
    requires PapersOf(entries, query, md5Hex).Some?
    ensures |PapersOf(entries, query, md5Hex).value| == |entries|
    ensures forall i :: 0 <= i < |entries| ==>
      EntryToPaper(entries[i], query, md5Hex) == Some(PapersOf(entries, query, md5Hex).value[i])
  {
    MapAllValues(entries, Converter(query, md5Hex));
  }

  /** The cache dictionary of a record: every key is present. */
  function PaperDataOf(p: Paper): (d: Database.PaperData)
    ensures d.id == Some(p.id) && d.title == Some(p.title) && d.authors == Some(p.authors) && d.year == Some(p.year)
    ensures d.abstractText == Some(p.abstractText) && d.url == Some(p.url) && d.searchQuery == Some(p.searchQuery)
  {
    Database.PaperData(Some(p.id), Some(p.title), Some(p.authors), Some(p.year), Some(p.abstractText), Some(p.url), Some(p.searchQuery))
  }

  // ---------------------------------------------------------------------------
  // The client
  // ---------------------------------------------------------------------------

  class AcademicAPIClient {
    const dbPath: string
    const mockMode: bool
    /** The network and the libraries. */
    const md5Hex: string -> HexDigest
    const fetchFeed: ArxivRequest -> FeedOutcome
    const fetchPdf: string -> PdfResponse
    const mockSearch: (string, Option<string>, int) -> seq<Paper>
    /** The summariser's answer to title and abstract on its n-th call (counted from 0): a model may answer differently each time. */
    const summarize: (string, string, nat) -> string
    /** The files on disk with their sizes, and the directories. */
    var files: map<string, nat>
    var dirs: set<string>
    /** How often the feed and a PDF were requested. */
    ghost var feedFetches: nat
    ghost var pdfFetches: nat
    /** How often the summariser was called. */
    var summaryCalls: nat

    constructor (dbPath: string, md5Hex: string -> HexDigest, fetchFeed: ArxivRequest -> FeedOutcome,
                 fetchPdf: string -> PdfResponse, mockSearch: (string, Option<string>, int) -> seq<Paper>,
                 summarize: (string, string, nat) -> string, files: map<string, nat>, dirs: set<string>)
      ensures !mockMode && this.dbPath == dbPath && this.md5Hex == md5Hex && this.fetchFeed == fetchFeed
      ensures this.fetchPdf == fetchPdf && this.mockSearch == mockSearch && this.summarize == summarize
      ensures this.files == files && this.dirs == dirs
      ensures feedFetches == 0 && pdfFetches == 0 && summaryCalls == 0
    {
      this.dbPath := dbPath;
      mockMode := false;
      this.md5Hex := md5Hex;
      this.fetchFeed := fetchFeed;
      this.fetchPdf := fetchPdf;
      this.mockSearch := mockSearch;
      this.summarize := summarize;
      this.files := files;
      this.dirs := dirs;
      feedFetches := 0;
      pdfFetches := 0;
      summaryCalls := 0;
    }

    /**
     * `download_paper(paper_id, download_dir)`; `papers` is the `cached_papers`
     * table of the database at `dbPath`. The directory is created first.
     */
    method DownloadPaper(papers: seq<Database.PaperRow>, paperId: string, downloadDir: string := "downloads")
      returns (result: DownloadResult)
      modifies this`files, this`dirs, this`pdfFetches
      ensures dirs == old(dirs) + {downloadDir}
      ensures var step := DownloadOutcome(papers, paperId, downloadDir, old(files), fetchPdf);
        result == step.result && files == step.files && pdfFetches == old(pdfFetches) + (if step.fetched then 1 else 0)
    {
      dirs := dirs + {downloadDir};
      var arxivId := ArxivIdOf(papers, paperId);
      if arxivId.None? {
        return DownloadFailed(NoArxivId, paperId);
      }
      var id := arxivId.value;
      var url := PdfUrl(id);
      var path := TargetPath(downloadDir, id);
      if path in files {
        return Downloaded(path, files[path], id, paperId, url, true);
      }
      var response := fetchPdf(url);
      pdfFetches := pdfFetches + 1;
      result := StoreResponse(paperId, id, url, path, response);
    }

    /** The part of `download_paper` after the request. */
    method StoreResponse(paperId: string, arxivId: string, url: string, path: string, response: PdfResponse)
      returns (result: DownloadResult)
      modifies this`files
      ensures var step := ResponseStep(paperId, arxivId, url, path, old(files), response);
        result == step.result && files == step.files
    {
      match response
      case PdfTimeout =>
        return DownloadFailed(TimedOut, paperId);
      case PdfRequestError(m) =>
        return DownloadFailed("Download failed: " + m, paperId);
      case PdfReply(status, reason, contentType, chunks, streamError) =>
        var httpError := HttpErrorText(status, reason, url);
        if httpError.Some? {
          return DownloadFailed("Download failed: " + httpError.value, paperId);
        }
        if Contains(Lower(contentType.GetOr("")), "html") {
          return DownloadFailed(HtmlReceived, paperId);
        }
        WriteChunks(path, chunks);
        if streamError.Some? {
          return DownloadFailed("Download failed: " + streamError.value, paperId);
        }
        var size := files[path];
        if size < MinPdfSize {
          files := files - {path};
          return DownloadFailed(TooSmall, paperId);
        }
        return Downloaded(path, size, arxivId, paperId, url, false);
    }

    /** Opens `path` for writing and appends the chunks one by one. */
    method WriteChunks(path: string, chunks: seq<nat>)
      modifies this`files
      ensures files == old(files)[path := Sum(chunks)]
    {
      files := files[path := 0];
      var i := 0;
      while i < |chunks|
        invariant 0 <= i <= |chunks|
        invariant files == old(files)[path := Sum(chunks[..i])]
      {
        assert chunks[..i + 1][..i] == chunks[..i];
        files := files[path := files[path] + chunks[i]];
        i := i + 1;
      }
      assert chunks[..i] == chunks;
    }

    /** `search_papers`: the mock search in mock mode, the arXiv search otherwise. */
    method SearchPapers(query: string, year: Option<string> := None, limit: int := 3) returns (papers: seq<Paper>)
      modifies this`feedFetches
      ensures papers == SearchResult(query, year, limit)
      ensures feedFetches == old(feedFetches) + (if mockMode then 0 else 1)
    {
      if mockMode {
        papers := mockSearch(query, year, limit);
      } else {
        papers := ArxivSearch(query, year, limit);
      }
    }

    /** What `search_papers` returns. */
    ghost function SearchResult(query: string, year: Option<string>, limit: int): seq<Paper> {
      if mockMode then mockSearch(query, year, limit) else SearchOutcome(query, year, limit)
    }

    /** What `_arxiv_search` returns: the records of the feed, or the mock search when anything fails. */
    ghost function SearchOutcome(query: string, year: Option<string>, limit: int): seq<Paper> {
      match fetchFeed(RequestFor(query, year, limit))
      case FeedFailed => mockSearch(query, year, limit)
      case Feed(entries) =>
        match PapersOf(entries, query, md5Hex)
        case None => mockSearch(query, year, limit)
        case Some(ps) => ps
    }

    /** `_arxiv_search`: one request, then the records of its entries or, on any failure, the mock search. */
    method ArxivSearch(query: string, year: Option<string>, limit: int) returns (papers: seq<Paper>)
      modifies this`feedFetches
      ensures papers == SearchOutcome(query, year, limit)
      ensures feedFetches == old(feedFetches) + 1
    {
      var outcome := fetchFeed(RequestFor(query, year, limit));
      feedFetches := feedFetches + 1;
      if outcome.FeedFailed? {
        return mockSearch(query, year, limit);
      }
      var records := RecordsOf(outcome.entries, query);
      if records.None? {
        return mockSearch(query, year, limit);
      }
      papers := records.value;
    }

    /** The loop of `_arxiv_search` over the feed's entries: one record per entry, in entry order. */
    method RecordsOf(entries: seq<Entry>, query: string) returns (r: Option<seq<Paper>>)
      ensures r == PapersOf(entries, query, md5Hex)
    {
      var convert := Converter(query, md5Hex);
      var papers := [];
      var i := 0;
      while i < |entries|
        invariant 0 <= i <= |entries|
        invariant MapAll(entries[..i], convert) == Some(papers)
      {
        MapAllStep(entries, i, convert);
        var p := convert(entries[i]);
        if p.None? {
          return None;
        }
        papers := papers + [p.value];
        i := i + 1;
      }
      assert entries[..i] == entries;
      return Some(papers);
    }

    /** `generate_summary(title, abstract)`: one call of the summariser. */
    method GenerateSummary(title: string, abstractText: string) returns (summary: string)
      modifies this`summaryCalls
      ensures summary == summarize(title, abstractText, old(summaryCalls))
      ensures summaryCalls == old(summaryCalls) + 1
    {
      summary := summarize(title, abstractText, summaryCalls);
      summaryCalls := summaryCalls + 1;
    }
  }
}
