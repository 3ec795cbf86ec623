/** The two request handlers that share the latest-prediction slot: the upload page,
    which fills the slot, and the chatbot endpoint, which answers from it. */
module WebApp {
  import opened Wrappers
  import opened Text
  import opened Prediction
  import opened Chatbot
  import opened Routes
  import opened Reports

  // ---------------------------------------------------------------------------
  // Requests and responses of the upload page
  // ---------------------------------------------------------------------------

  datatype Verb = Get | Post

  /** The uploaded `file` part: the name the browser sent, the name `secure_filename`
      makes of it, and what the predictor yields for the saved image (`None` when the
      predictor raises). */
  datatype FilePart = FilePart(clientName: string, savedName: string, diagnosis: Option<Diagnosis>)

  /** The parts of a request the page reads: its method, the `file` part if one was
      sent, and the form fields. */
  datatype Request = Request(verb: Verb, file: Option<FilePart>, form: map<string, string>)

  /** The values handed to the page template; `None` is Python's `None`. */
  datatype Page = Page(
    result: Option<Label>,
    confidence: Option<string>,
    filename: Option<string>,
    patientName: Option<string>,
    age: Option<string>,
    gender: Option<string>)

  /** The rendered page, or the server error an exception inside the handler becomes. */
  datatype Response = Rendered(page: Page) | ServerError

  /** `request.form.get(key, default)`. */
  function FormGet(form: map<string, string>, key: string, default: string): string
  {
    if key in form then form[key] else default
  }

  function PatientNameOf(req: Request): string { FormGet(req.form, "patient_name", "Unknown") }
  function AgeOf(req: Request): string { FormGet(req.form, "age", "") }
  function GenderOf(req: Request): string { FormGet(req.form, "gender", "") }

  /** A POST whose `file` part is truthy, that is, was sent with a non-empty file name. */
  predicate HasFile(req: Request)
  {
    req.verb == Post && req.file.Some? && req.file.value.clientName != ""
  }

  /** Saving the file works (a blank secured name would make the target the upload
      folder itself) and the predictor yields a diagnosis. */
  predicate Succeeds(req: Request)
  {
    HasFile(req) && req.file.value.savedName != "" && req.file.value.diagnosis.Some?
  }

  /** The record a successful upload stores. */
  function Stored(req: Request): Record
    requires Succeeds(req)
  {
    Record(PatientNameOf(req), AgeOf(req), GenderOf(req), req.file.value.savedName, req.file.value.diagnosis.value)
  }

  /** The slot after handling `req`. */
  function NextSlot(slot: Option<Record>, req: Request): Option<Record>
  {
    if Succeeds(req) then Some(Stored(req)) else slot
  }

  /** The response to `req`. */
  function ResponseFor(req: Request): Response
  {
    if req.verb == Get then Rendered(Page(None, None, None, None, None, None))
    else if !HasFile(req) then
      Rendered(Page(None, None, None, Some(PatientNameOf(req)), Some(AgeOf(req)), Some(GenderOf(req))))
    else if !Succeeds(req) then ServerError
    else
      var rec := Stored(req);
      Rendered(Page(Some(rec.diagnosis.result), Some(rec.diagnosis.confidence), Some(rec.filename),
                    Some(rec.patientName), Some(rec.age), Some(rec.gender)))
  }

  /** The `for key, val in responses.items()` loop: the value of the first key found
      in the message, in table order, or the fallback once the table is exhausted. */
  method ScanTable(msg: string) returns (reply: string)
    ensures reply == KeywordReply(msg)
  {
    var i := 0;
    while i < |Responses|
      invariant i <= |Responses|
      invariant forall j :: 0 <= j < i ==> !Contains(msg, Responses[j].0)
    {
      if Contains(msg, Responses[i].0) {
        KeywordReplyAt(msg, i);
        return Responses[i].1;
      }
      i := i + 1;
    }
    KeywordReplyAt(msg, i);
    reply := Fallback;
  }

  // ---------------------------------------------------------------------------
  // The application object
  // ---------------------------------------------------------------------------

  class App {
    /** `latest_prediction`: empty until the first successful upload. */
    var latest: Option<Record>

    constructor ()
      ensures latest == None
    {
      latest := None;
    }

    /** The upload page: reads the form on a POST and, when a file came with it,
        saves it, runs the predictor and overwrites the slot with the new record. */
    method Index(req: Request) returns (resp: Response)
      modifies this
      ensures latest == NextSlot(old(latest), req)
      ensures resp == ResponseFor(req)
    {
      var result: Option<Label> := None;
      var confidence: Option<string> := None;
      var filename: Option<string> := None;
      var patientName: Option<string> := None;
      var age: Option<string> := None;
      var gender: Option<string> := None;
      if req.verb == Post {
        patientName := Some(FormGet(req.form, "patient_name", "Unknown"));
        age := Some(FormGet(req.form, "age", ""));
        gender := Some(FormGet(req.form, "gender", ""));
        if req.file.Some? && req.file.value.clientName != "" {
          var part := req.file.value;
          if part.savedName == "" {
            return ServerError;
          }
          filename := Some(part.savedName);
          if part.diagnosis.None? {
            return ServerError;
          }
          var d := part.diagnosis.value;
          result := Some(d.result);
          confidence := Some(d.confidence);
          latest := Some(Record(patientName.value, age.value, gender.value, part.savedName, d));
        }
      }
      resp := Rendered(Page(result, confidence, filename, patientName, age, gender));
    }

    /** The chatbot endpoint: normalises the message and answers it. */
    method ChatbotResponse(message: Option<string>) returns (reply: string)
      ensures reply == Reply(Normalize(message), latest)
    {
      var msg := Normalize(message);
      reply := Answer(msg);
    }

    /** The answer to a normalised message: the result check, the report check, then a
        scan of the keyword table that stops at the first key found, then the fallback. */
    method Answer(msg: string) returns (reply: string)
      ensures reply == Reply(msg, latest)
    {
      if AnyIn(ResultPhrases, msg) {
        return ResultReply(latest);
      }
      if AnyIn(ReportPhrases, msg) {
        return ReportReply(latest);
      }
      reply := ScanTable(msg);
    }
  }

  // ---------------------------------------------------------------------------
  // Properties of the slot
  // ---------------------------------------------------------------------------

  /** The slot changes only on a POST that carries a file, and such a request that
      saves and predicts successfully always replaces it. */
  lemma SlotChangesOnlyOnUpload(slot: Option<Record>, req: Request)
    ensures NextSlot(slot, req) != slot ==> req.verb == Post && HasFile(req)
    ensures Succeeds(req) ==> NextSlot(slot, req) == Some(Stored(req))
    ensures !Succeeds(req) ==> NextSlot(slot, req) == slot
  {
  }

  /** After a successful upload the slot holds exactly the request's form fields, with
      the handler's defaults for missing ones, the secured file name and the diagnosis. */
  lemma UploadStoresRequest(slot: Option<Record>, req: Request)
    requires Succeeds(req)
    ensures NextSlot(slot, req).Some?
    ensures var rec := NextSlot(slot, req).value;
      && rec.patientName == (if "patient_name" in req.form then req.form["patient_name"] else "Unknown")
      && rec.age == (if "age" in req.form then req.form["age"] else "")
      && rec.gender == (if "gender" in req.form then req.form["gender"] else "")
      && rec.filename == req.file.value.savedName
      && rec.diagnosis == req.file.value.diagnosis.value
  {
  }

  /** A GET renders every template value unset; a POST without a file renders the
      form fields but no result, confidence or file name. */
  lemma PageWithoutUpload(req: Request)
    requires !HasFile(req)
    ensures ResponseFor(req).Rendered?
    ensures var p := ResponseFor(req).page;
      && p.result.None? && p.confidence.None? && p.filename.None?
      && (req.verb == Get ==> p.patientName.None? && p.age.None? && p.gender.None?)
      && (req.verb == Post ==> p.patientName == Some(PatientNameOf(req)) && p.age == Some(AgeOf(req)))
      && (req.verb == Post ==> p.gender == Some(GenderOf(req)))
  {
  }

  /** A successful upload shows on the page exactly what it stored in the slot. */
  lemma PageShowsStoredRecord(slot: Option<Record>, req: Request)
    requires Succeeds(req)
    ensures ResponseFor(req).Rendered? && NextSlot(slot, req).Some?
    ensures var p, rec := ResponseFor(req).page, NextSlot(slot, req).value;
      p == Page(Some(rec.diagnosis.result), Some(rec.diagnosis.confidence), Some(rec.filename),
                Some(rec.patientName), Some(rec.age), Some(rec.gender))
  {
  }

  /** An upload that fails is a server error and leaves the slot as it was. */
  lemma FailedUploadKeepsSlot(slot: Option<Record>, req: Request)
    requires HasFile(req) && !Succeeds(req)
    ensures ResponseFor(req) == ServerError && NextSlot(slot, req) == slot
  {
  }

  // ---------------------------------------------------------------------------
  // The report route
  // ---------------------------------------------------------------------------

  /** What the report route produces from its path values: the report's file name
      and its impression sentence. */
  datatype ReportFile = ReportFile(name: string, impression: string)

  /** The report route at time `now`: a path the route does not match is not found
      (`None`); a matched one names its report after the patient segment and takes
      the impression from the result segment. */
  function ReportRoute(now: DateTime, path: string): Option<ReportFile>
    requires now.Valid()
  {
    match ParseReportPath(path)
    case None => None
    case Some(a) => Some(ReportFile(ReportName(now, a.patientName), Impression(a.result)))
  }

  /** Following the chatbot's link for a stored record reaches the route exactly when
      every stored value is a proper segment; the report is then named after the
      stored patient and its impression is the pneumonia one exactly when the stored
      label is PNEUMONIA. */
  lemma ChatLinkDownloadsReport(now: DateTime, rec: Record)
    requires now.Valid()
    ensures var r := ReportRoute(now, ReportReply(Some(rec))[|DownloadLead|..]);
      && (r.Some? <==> Routable(ArgsOf(rec)))
      && (r.Some? ==> r.value.name == ReportName(now, rec.patientName))
      && (r.Some? ==> (r.value.impression == PneumoniaImpression <==> rec.diagnosis.result == Pneumonia))
  {
    LinkRoundTrip(ArgsOf(rec));
  }

  /** A blank age, whether the field was left empty or was missing and defaulted to "",
      gives a link the route turns away. */
  lemma BlankAgeBreaksLink(now: DateTime, rec: Record)
    requires now.Valid() && rec.age == ""
    ensures ReportRoute(now, ReportReply(Some(rec))[|DownloadLead|..]) == None
  {
    ChatLinkDownloadsReport(now, rec);
    assert !SegmentOk(Segments(ArgsOf(rec))[1]);
  }

  // ---------------------------------------------------------------------------
  // A run of requests
  // ---------------------------------------------------------------------------

  /** The slot after handling `reqs` in order, starting from `slot`. */
  function Replay(slot: Option<Record>, reqs: seq<Request>): Option<Record>
    decreases |reqs|
  {
    if reqs == [] then slot else Replay(NextSlot(slot, reqs[0]), reqs[1..])
  }

  /** The record of the last successful upload in `reqs`, if there is one. */
  function LastUpload(reqs: seq<Request>): (r: Option<Record>)
    ensures r.Some? ==> exists k :: 0 <= k < |reqs| && Succeeds(reqs[k]) && r.value == Stored(reqs[k])
                                    && forall j :: k < j < |reqs| ==> !Succeeds(reqs[j])
    ensures r.None? ==> forall k :: 0 <= k < |reqs| ==> !Succeeds(reqs[k])
    decreases |reqs|
  {
    if reqs == [] then None
    else
      var n := |reqs| - 1;
      if Succeeds(reqs[n]) then Some(Stored(reqs[n]))
      else
        var init := reqs[..n];
        assert forall j :: 0 <= j < n ==> init[j] == reqs[j];
        LastUpload(init)
  }

  /** Handling one more request is one more slot step. */
  lemma {:induction false} ReplaySnoc(slot: Option<Record>, reqs: seq<Request>, req: Request)
    ensures Replay(slot, reqs + [req]) == NextSlot(Replay(slot, reqs), req)
    decreases |reqs|
  {
    if reqs != [] {
      assert (reqs + [req])[1..] == reqs[1..] + [req];
      ReplaySnoc(NextSlot(slot, reqs[0]), reqs[1..], req);
    }
  }

  /** After any run of requests the slot holds the record of the last successful
      upload, and the starting slot when there was none. */
  lemma {:induction false} ReplayIsLastUpload(slot: Option<Record>, reqs: seq<Request>)
    ensures Replay(slot, reqs) == if LastUpload(reqs).Some? then LastUpload(reqs) else slot
    decreases |reqs|
  {
    if reqs != [] {
      var init, last := reqs[..|reqs| - 1], reqs[|reqs| - 1];
      assert reqs == init + [last];
      ReplaySnoc(slot, init, last);
      ReplayIsLastUpload(slot, init);
    }
  }

  /** A fresh application answers a question about the result with the "none" message
      until a successful upload, and afterwards with the stored label and confidence. */
  lemma AskAfterUpload(reqs: seq<Request>, msg: string)
    requires AnyIn(ResultPhrases, msg)
    ensures LastUpload(reqs).None? ==> Reply(msg, Replay(None, reqs)) == NoPrediction
    ensures LastUpload(reqs).Some? ==>
      var rec := LastUpload(reqs).value;
      && Contains(Reply(msg, Replay(None, reqs)), LabelName(rec.diagnosis.result))
      && Contains(Reply(msg, Replay(None, reqs)), rec.diagnosis.confidence)
  {
    ReplayIsLastUpload(None, reqs);
  }
}
