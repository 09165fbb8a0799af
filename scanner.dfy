/** `ReceiptScanner.scanReceipt` (src/index.ts:254-303): checks the URL,
    loads the viewer page, posts for the specifications and reports exactly
    one of success, `INVALID_URL`, `EXTRACTION_FAILED`, `FETCH_FAILED` or
    `PROCESSING_ERROR`. The two network calls are inputs: the viewer page's
    reply, and the specifications server as a function of the request sent;
    the calls made are returned alongside the result. */
module Scanner {
  import opened Wrappers
  import opened Text
  import opened Cookies
  import opened Extraction
  import opened Receipts

  const Host := "suf.purs.gov.rs"

  datatype ErrorCode = InvalidUrl | ExtractionFailed | FetchFailed | ProcessingError

  /** The code as it appears in the `error` field. */
  function CodeName(e: ErrorCode): string {
    match e
    case InvalidUrl => "INVALID_URL"
    case ExtractionFailed => "EXTRACTION_FAILED"
    case FetchFailed => "FETCH_FAILED"
    case ProcessingError => "PROCESSING_ERROR"
  }

  datatype ScanResult = ScanResult(success: bool, message: string, data: Option<Receipt>, error: Option<ErrorCode>)

  /** The network calls a scan makes, in order. */
  datatype Call = ViewerGet(url: string) | SpecificationsPost(request: SpecRequest)

  const SuccessMessage := "Receipt scanned successfully"
  const InvalidUrlMessage := "Invalid receipt URL. Must be from suf.purs.gov.rs"
  const ExtractionFailedMessage := "Could not extract invoice data from receipt URL"
  const FetchFailedMessage := "Failed to fetch receipt specifications"
  const ProcessingPrefix := "Error processing receipt: "

  function Failure(code: ErrorCode, message: string): ScanResult {
    ScanResult(false, message, None, Some(code))
  }

  /** What the outer `catch` returns for an error thrown inside. */
  function Processing(message: string): ScanResult {
    Failure(ProcessingError, ProcessingPrefix + message)
  }

  /** `!receiptUrl || !receiptUrl.includes('suf.purs.gov.rs')`, negated. */
  predicate ValidUrl(url: string) {
    url != "" && Contains(url, Host)
  }

  /** The `Cookie` header of the POST: the fresh table after the page
      request, serialised. */
  function CookieAfter(page: PageReply): string {
    JarAfterPageWellFormed(EmptyJar, page);
    Serialize(JarAfterPage(EmptyJar, page))
  }

  /** The outcome of the POST once the page yielded its arguments. */
  function AfterFetch(fetched: Result<Option<Receipt>>, metadata: ReceiptMetadata): ScanResult {
    match fetched
    case Err(msg) => Processing(msg)
    case Ok(None) => Failure(FetchFailed, FetchFailedMessage)
    case Ok(Some(r)) =>
      if r.success then ScanResult(true, SuccessMessage, Some(r.(metadata := Some(metadata))), None)
      else Failure(FetchFailed, FetchFailedMessage)
  }

  /** The scan once the page request's outcome and the cookie header it
      leads to are known: the result, and the calls made on the way. */
  function Decide(url: string, extraction: Result<Option<Extracted>>, cookie: string,
                  server: SpecRequest -> SpecReply): (ScanResult, seq<Call>)
  {
    if !ValidUrl(url) then (Failure(InvalidUrl, InvalidUrlMessage), [])
    else match extraction
      case Err(msg) => (Processing(msg), [ViewerGet(url)])
      case Ok(None) => (Failure(ExtractionFailed, ExtractionFailedMessage), [ViewerGet(url)])
      case Ok(Some(x)) =>
        var request := SpecRequest(url, x.data.invoiceNumber, x.data.token, cookie);
        var fetched := FetchOutcome(server(request), x.data.invoiceNumber);
        (AfterFetch(fetched, x.metadata), [ViewerGet(url), SpecificationsPost(request)])
  }

  /** `scanReceipt(receiptUrl)`. */
  function Scan(url: string, page: PageReply, server: SpecRequest -> SpecReply): (ScanResult, seq<Call>) {
    Decide(url, ExtractOutcome(page), CookieAfter(page), server)
  }

  /** `scanReceipt` step by step: a fresh `CookieManager` is filled by the
      page request and read by the POST. */
  method ScanReceipt(url: string, page: PageReply, server: SpecRequest -> SpecReply)
    returns (result: ScanResult, calls: seq<Call>)
    ensures (result, calls) == Scan(url, page, server)
  {
    if url == "" || !Contains(url, Host) {
      return Failure(InvalidUrl, InvalidUrlMessage), [];
    }
    var jar := new CookieManager();
    var extraction := ExtractInvoiceData(page, jar);
    result, calls := AfterExtraction(url, extraction, jar, server);
  }

  /** The rest of `scanReceipt` once the page request has returned. */
  method AfterExtraction(url: string, extraction: Result<Option<Extracted>>, jar: CookieManager,
                         server: SpecRequest -> SpecReply)
    returns (result: ScanResult, calls: seq<Call>)
    requires ValidUrl(url) && jar.Valid()
    ensures (result, calls) == Decide(url, extraction, Serialize(jar.Contents()), server)
  {
    calls := [ViewerGet(url)];
    match extraction
    case Err(msg) =>
      result := Processing(msg);
    case Ok(None) =>
      result := Failure(ExtractionFailed, ExtractionFailedMessage);
    case Ok(Some(x)) =>
      var fetched, request := FetchSpecifications(url, x.data.invoiceNumber, x.data.token, server, jar);
      calls := calls + [SpecificationsPost(request)];
      assert calls == Decide(url, extraction, Serialize(jar.Contents()), server).1;
      match fetched
      case Err(msg) =>
        result := Processing(msg);
      case Ok(None) =>
        result := Failure(FetchFailed, FetchFailedMessage);
      case Ok(Some(r)) =>
        if r.success {
          var data := r.(metadata := Some(x.metadata));
          result := ScanResult(true, SuccessMessage, Some(data), None);
        } else {
          result := Failure(FetchFailed, FetchFailedMessage);
        }
      assert result == AfterFetch(fetched, x.metadata);
  }

  // ---------------------------------------------------------------------
  // Properties of the outcome, for any page outcome and cookie header

  /** `success` is true iff `data` is present and `error` absent; a failure
      always names its code. */
  lemma Envelope(url: string, e: Result<Option<Extracted>>, cookie: string, server: SpecRequest -> SpecReply)
    ensures Decide(url, e, cookie, server).0.success <==>
      Decide(url, e, cookie, server).0.data.Some? && Decide(url, e, cookie, server).0.error.None?
    ensures !Decide(url, e, cookie, server).0.success <==> Decide(url, e, cookie, server).0.error.Some?
    ensures Decide(url, e, cookie, server).0.success ==> Decide(url, e, cookie, server).0.message == SuccessMessage
  {
  }

  /** `INVALID_URL` exactly for a URL that is empty or not on the portal,
      and then nothing is requested; otherwise the page is requested first. */
  lemma DecideRefusal(url: string, e: Result<Option<Extracted>>, cookie: string, server: SpecRequest -> SpecReply)
    ensures Decide(url, e, cookie, server).0.error == Some(InvalidUrl) <==> !ValidUrl(url)
    ensures !ValidUrl(url) ==> Decide(url, e, cookie, server).1 == []
    ensures ValidUrl(url) ==>
      |Decide(url, e, cookie, server).1| > 0 && Decide(url, e, cookie, server).1[0] == ViewerGet(url)
  {
  }

  /** The POST is made iff the page request returned its arguments, and it
      carries them, the scanned URL and the cookie header. */
  lemma DecidePost(url: string, e: Result<Option<Extracted>>, cookie: string, server: SpecRequest -> SpecReply)
    ensures |Decide(url, e, cookie, server).1| == 2 <==> ValidUrl(url) && e.Ok? && e.value.Some?
    ensures |Decide(url, e, cookie, server).1| <= 2
    ensures ValidUrl(url) && e.Ok? && e.value.Some? ==>
      var x := e.value.value;
      Decide(url, e, cookie, server).1 ==
        [ViewerGet(url), SpecificationsPost(SpecRequest(url, x.data.invoiceNumber, x.data.token, cookie))]
  {
  }

  /** The outcome once the POST's reply is known. */
  lemma DecideFetched(url: string, e: Result<Option<Extracted>>, cookie: string, server: SpecRequest -> SpecReply)
    requires ValidUrl(url) && e.Ok? && e.value.Some?
    ensures var x := e.value.value;
      var fetched := FetchOutcome(server(SpecRequest(url, x.data.invoiceNumber, x.data.token, cookie)), x.data.invoiceNumber);
      && (Decide(url, e, cookie, server).0.error == Some(ProcessingError) <==> fetched.Err?)
      && (Decide(url, e, cookie, server).0.error == Some(FetchFailed) <==>
            fetched == Ok(None) || (fetched.Ok? && fetched.value.Some? && !fetched.value.value.success))
      && (Decide(url, e, cookie, server).0.success <==> fetched.Ok? && fetched.value.Some? && fetched.value.value.success)
      && (Decide(url, e, cookie, server).0.success ==>
            Decide(url, e, cookie, server).0.data == Some(fetched.value.value.(metadata := Some(x.metadata))))
      && (fetched.Err? ==> Decide(url, e, cookie, server).0.message == ProcessingPrefix + fetched.message)
  {
  }

  /** Before the POST: a thrown page request is a `PROCESSING_ERROR`
      carrying its message, and a page without the arguments is
      `EXTRACTION_FAILED`. */
  lemma DecideBeforePost(url: string, e: Result<Option<Extracted>>, cookie: string, server: SpecRequest -> SpecReply)
    requires ValidUrl(url) && !(e.Ok? && e.value.Some?)
    ensures e.Err? ==> Decide(url, e, cookie, server).0 == Processing(e.message)
    ensures e.Ok? ==> Decide(url, e, cookie, server).0 == Failure(ExtractionFailed, ExtractionFailedMessage)
    ensures Decide(url, e, cookie, server).1 == [ViewerGet(url)]
  {
  }

  // ---------------------------------------------------------------------
  // Properties of `scanReceipt`

  /** A URL that is empty or not on the portal is refused before any
      request, and only such a URL gives `INVALID_URL`. */
  lemma InvalidUrlFirst(url: string, page: PageReply, server: SpecRequest -> SpecReply)
    ensures Scan(url, page, server).0.error == Some(InvalidUrl) <==> !ValidUrl(url)
    ensures !ValidUrl(url) ==> Scan(url, page, server).1 == []
    ensures ValidUrl(url) ==> |Scan(url, page, server).1| > 0 && Scan(url, page, server).1[0] == ViewerGet(url)
  {
    DecideRefusal(url, ExtractOutcome(page), CookieAfter(page), server);
  }

  /** The empty URL is refused: the `!receiptUrl` test. */
  lemma EmptyUrlRefused(page: PageReply, server: SpecRequest -> SpecReply)
    ensures Scan("", page, server) == (Failure(InvalidUrl, InvalidUrlMessage), [])
  {
  }

  /** `EXTRACTION_FAILED` exactly when the page came back without both
      arguments or with a status other than 200; then there is no POST. */
  lemma ExtractionFailedWhen(url: string, page: PageReply, server: SpecRequest -> SpecReply)
    ensures Scan(url, page, server).0.error == Some(ExtractionFailed) <==>
      ValidUrl(url) && page.Page? && (page.status != 200 || ExtractTokens(page.html).None?)
    ensures Scan(url, page, server).0.error == Some(ExtractionFailed) ==>
      Scan(url, page, server) == (Failure(ExtractionFailed, ExtractionFailedMessage), [ViewerGet(url)])
  {
    var e := ExtractOutcome(page);
    ExtractOutcomeSpec(page);
    DecideRefusal(url, e, CookieAfter(page), server);
    DecidePost(url, e, CookieAfter(page), server);
    if ValidUrl(url) && !(e.Ok? && e.value.Some?) {
      DecideBeforePost(url, e, CookieAfter(page), server);
    } else if ValidUrl(url) {
      DecideFetched(url, e, CookieAfter(page), server);
    }
  }

  /** The POST is made iff the page yielded both arguments; it carries
      them, the scanned URL as referer and the cookies the page set. */
  lemma PostRequest(url: string, page: PageReply, server: SpecRequest -> SpecReply)
    ensures |Scan(url, page, server).1| == 2 <==>
      ValidUrl(url) && page.Page? && page.status == 200 && ExtractTokens(page.html).Some?
    ensures |Scan(url, page, server).1| <= 2
    ensures ValidUrl(url) && page.Page? && page.status == 200 && ExtractTokens(page.html).Some? ==>
      var data := ExtractTokens(page.html).value;
      Scan(url, page, server).1 ==
        [ViewerGet(url), SpecificationsPost(SpecRequest(url, data.invoiceNumber, data.token, CookieAfter(page)))]
  {
    ExtractOutcomeSpec(page);
    DecidePost(url, ExtractOutcome(page), CookieAfter(page), server);
  }

  /** The POST's cookies always include `localization`: the default
      header when the page set none, otherwise a table holding that name. */
  lemma PostCookieLocale(page: PageReply)
    requires page.Page? && page.status == 200
    ensures Falsy(page.setCookie) ==> CookieAfter(page) == DefaultCookie
    ensures !Falsy(page.setCookie) ==> Localization in JarAfterPage(EmptyJar, page).values
  {
  }

  /** The request the POST sends for a page that yielded its arguments. */
  function PostedRequest(url: string, page: PageReply): SpecRequest
    requires page.Page? && ExtractTokens(page.html).Some?
  {
    var data := ExtractTokens(page.html).value;
    SpecRequest(url, data.invoiceNumber, data.token, CookieAfter(page))
  }

  /** After the POST: a thrown request or an unreadable body is a
      `PROCESSING_ERROR`, a status other than 200 or a receipt whose
      `success` is false is `FETCH_FAILED`, and a successful receipt is
      returned normalised, with the page's metadata attached. */
  lemma AfterPost(url: string, page: PageReply, server: SpecRequest -> SpecReply)
    requires ValidUrl(url) && page.Page? && page.status == 200 && ExtractTokens(page.html).Some?
    ensures var reply := server(PostedRequest(url, page));
      && (Scan(url, page, server).0.error == Some(ProcessingError) <==>
            reply.SpecThrew? || (reply.status == 200 && reply.payload.Unparsable?))
      && (Scan(url, page, server).0.error == Some(FetchFailed) <==>
            reply.SpecResponse? && (reply.status != 200 || (reply.payload.Parsed? && !reply.payload.receipt.success)))
      && (Scan(url, page, server).0.success <==>
            reply.SpecResponse? && reply.status == 200 && reply.payload.Parsed? && reply.payload.receipt.success)
  {
    var e := ExtractOutcome(page);
    ExtractOutcomeSpec(page);
    DecideFetched(url, e, CookieAfter(page), server);
    ExtractTokensBoth(page.html);
    FetchOutcomeSpec(server(PostedRequest(url, page)), ExtractTokens(page.html).value.invoiceNumber);
  }

  /** A page request that throws ends in `PROCESSING_ERROR` with both
      messages. */
  lemma PageThrewMessage(url: string, msg: string, server: SpecRequest -> SpecReply)
    requires ValidUrl(url)
    ensures Scan(url, PageThrew(msg), server) ==
      (Failure(ProcessingError, ProcessingPrefix + (ExtractErrorPrefix + msg)), [ViewerGet(url)])
  {
    DecideBeforePost(url, ExtractOutcome(PageThrew(msg)), CookieAfter(PageThrew(msg)), server);
  }

  /** On success the data is the server's receipt, normalised, with the
      page's metadata attached. */
  lemma SuccessData(url: string, page: PageReply, server: SpecRequest -> SpecReply)
    requires Scan(url, page, server).0.success
    ensures page.Page? && page.status == 200 && ExtractTokens(page.html).Some?
    ensures page.Page? && ExtractTokens(page.html).Some? ==>
      var d := Scan(url, page, server).0.data;
      var reply := server(PostedRequest(url, page));
      && reply.SpecResponse? && reply.payload.Parsed?
      && d == Some(Normalize(reply.payload.receipt, ExtractTokens(page.html).value.invoiceNumber)
                     .(metadata := Some(ExtractMetadata(page.html))))
  {
    var e := ExtractOutcome(page);
    ExtractOutcomeSpec(page);
    DecideRefusal(url, e, CookieAfter(page), server);
    if !(e.Ok? && e.value.Some?) {
      DecideBeforePost(url, e, CookieAfter(page), server);
    } else {
      DecideFetched(url, e, CookieAfter(page), server);
      FetchOutcomeSpec(server(PostedRequest(url, page)), e.value.value.data.invoiceNumber);
    }
  }
}
