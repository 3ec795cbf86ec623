/** The chatbot's reply selection: a fixed-priority keyword matcher over the
    normalised message and the latest-prediction slot. */
module Chatbot {
  import opened Wrappers
  import opened Text
  import opened Prediction
  import opened Routes

  // ---------------------------------------------------------------------------
  // Replies
  // ---------------------------------------------------------------------------

  const HelloReply: string := "Hello! \U{1F44B} I am your Pneumonia AI Assistant. Ask me about pneumonia or X-ray prediction."
  const HiReply: string := "Hi! I can help explain pneumonia and assist with chest X-ray analysis."
  const PneumoniaReply: string := "Pneumonia is an infection inflaming air sacs in lungs. Symptoms: cough, fever, shortness of breath. Upload X-ray to get AI prediction."
  const XrayReply: string := "Upload a chest X-ray using the form above to get a prediction."
  const ReportHelpReply: string := "After" + " prediction, you can download a PDF report containing patient info and AI result."
  const HowReply: string := "You can ask things like 'What is pneumonia?', 'How to upload X-ray?', or 'How to download report?'."
  const ThanksReply: string := "You're welcome! \U{1F60A} Stay healthy!"
  const ThankYouReply: string := "Glad I could help! \U{1FA7A}"

  const NoPrediction: string := "No" + " recent prediction found. Please upload a new X-ray first."
  const NoReport: string := "No" + " report available. Please upload an X-ray first!"
  const Fallback: string := "I'm here to help! Could you clarify your question?"

  const PredictionLead: string := "\U{1FA7A} Last Prediction: "
  const DownloadLead: string := "\U{1F4C4} Download your latest report here: "

  /** The keyword table, in the dictionary's insertion order, which is the order it is scanned in. */
  const Responses: seq<(string, string)> := [
    ("hello", HelloReply),
    ("hi", HiReply),
    ("pneumonia", PneumoniaReply),
    ("x-ray", XrayReply),
    ("report", ReportHelpReply),
    ("how", HowReply),
    ("thanks", ThanksReply),
    ("thank you", ThankYouReply)
  ]

  /** Index of the "report" entry of the table. */
  const ReportEntry: nat := 4

  const ResultPhrases: seq<string> := ["last prediction", "my result", "result"]
  const ReportPhrases: seq<string> := ["report", "pdf", "download report"]

  // ---------------------------------------------------------------------------
  // Selection
  // ---------------------------------------------------------------------------

  /** `(data.get("message", "") or "").lower().strip()`: an absent or null message is
      the empty text. */
  function Normalize(message: Option<string>): string
  {
    Strip(Lower(message.GetOr("")))
  }

  /** A normalised message has no ASCII capital and no whitespace at either end, and
      normalising it again changes nothing. */
  lemma NormalizeIdempotent(message: Option<string>)
    ensures forall i :: 0 <= i < |Normalize(message)| ==> !('A' <= Normalize(message)[i] <= 'Z')
    ensures var n := Normalize(message); n == [] || (!IsSpace(n[0]) && !IsSpace(n[|n| - 1]))
    ensures Normalize(Some(Normalize(message))) == Normalize(message)
  {
    var t := Lower(message.GetOr(""));
    LowerIsLower(message.GetOr(""));
    StripNoCapital(t);
    StripIdempotent(t);
  }

  /** `any(k in msg for k in phrases)`. */
  predicate AnyIn(phrases: seq<string>, msg: string)
  {
    exists i :: 0 <= i < |phrases| && Contains(msg, phrases[i])
  }

  /** The position of the first table key that occurs in `msg`, or the table's length
      when none does. */
  function FirstHit(table: seq<(string, string)>, msg: string): (i: nat)
    ensures i <= |table|
    ensures i < |table| ==> Contains(msg, table[i].0)
    ensures forall j :: 0 <= j < i ==> !Contains(msg, table[j].0)
    decreases |table|
  {
    if table == [] then 0
    else if Contains(msg, table[0].0) then 0
    else 1 + FirstHit(table[1..], msg)
  }

  /** The values the report link is built from: the stored fields of the record. */
  function ArgsOf(rec: Record): ReportArgs
  {
    ReportArgs(rec.patientName, rec.age, rec.gender, rec.filename,
               LabelName(rec.diagnosis.result), rec.diagnosis.confidence)
  }

  /** The reply to a question about the last prediction: the "none" message when the
      slot is empty, otherwise a sentence starting with the lead that holds the stored
      label and confidence. */
  function ResultReply(latest: Option<Record>): (r: string)
    ensures latest.None? ==> r == NoPrediction
    ensures latest.Some? ==> |r| >= |PredictionLead| && r[..|PredictionLead|] == PredictionLead
    ensures latest.Some? ==> Contains(r, LabelName(latest.value.diagnosis.result))
    ensures latest.Some? ==> Contains(r, latest.value.diagnosis.confidence)
  {
    match latest
    case None => NoPrediction
    case Some(rec) =>
      var name := LabelName(rec.diagnosis.result);
      var conf := rec.diagnosis.confidence;
      var r := PredictionLead + name + " (Confidence: " + conf + "%)";
      assert r[|PredictionLead|..|PredictionLead| + |name|] == name;
      ContainsAt(r, name, |PredictionLead|);
      var at := |PredictionLead| + |name| + |" (Confidence: "|;
      assert r[at..at + |conf|] == conf;
      ContainsAt(r, conf, at);
      r
  }

  /** The reply to a request for the report: the "none" message when the slot is
      empty, otherwise the lead followed by the link built from the stored record. */
  function ReportReply(latest: Option<Record>): (r: string)
    ensures latest.None? ==> r == NoReport
    ensures latest.Some? ==> |r| >= |DownloadLead| && r[..|DownloadLead|] == DownloadLead
    ensures latest.Some? ==> r[|DownloadLead|..] == ReportLink(ArgsOf(latest.value))
  {
    match latest
    case None => NoReport
    case Some(rec) => DownloadLead + ReportLink(ArgsOf(rec))
  }

  /** The reply the keyword table gives, or the fallback. */
  function KeywordReply(msg: string): string
  {
    var i := FirstHit(Responses, msg);
    if i < |Responses| then Responses[i].1 else Fallback
  }

  /** The whole decision, in the order the handler tries it. */
  function Reply(msg: string, latest: Option<Record>): string
  {
    if AnyIn(ResultPhrases, msg) then ResultReply(latest)
    else if AnyIn(ReportPhrases, msg) then ReportReply(latest)
    else KeywordReply(msg)
  }

  // ---------------------------------------------------------------------------
  // Properties of the decision
  // ---------------------------------------------------------------------------

  /** "my result" adds nothing: the result check fires exactly on "result" or "last prediction". */
  lemma ResultPhrasesIff(msg: string)
    ensures AnyIn(ResultPhrases, msg) <==> Contains(msg, "result") || Contains(msg, "last prediction")
  {
    assert "my result"[3..9] == "result";
    ContainsAt("my result", "result", 3);
    if Contains(msg, "my result") {
      ContainsTrans(msg, "my result", "result");
    }
    assert Contains(msg, ResultPhrases[0]) || Contains(msg, ResultPhrases[2]) ==> AnyIn(ResultPhrases, msg);
  }

  /** "download report" adds nothing: the report check fires exactly on "report" or "pdf". */
  lemma ReportPhrasesIff(msg: string)
    ensures AnyIn(ReportPhrases, msg) <==> Contains(msg, "report") || Contains(msg, "pdf")
  {
    assert "download report"[9..15] == "report";
    ContainsAt("download report", "report", 9);
    if Contains(msg, "download report") {
      ContainsTrans(msg, "download report", "report");
    }
    assert Contains(msg, ReportPhrases[0]) || Contains(msg, ReportPhrases[1]) ==> AnyIn(ReportPhrases, msg);
  }

  /** A message mentioning a result gets the last-prediction reply, whatever else it holds. */
  lemma ResultWins(msg: string, latest: Option<Record>)
    requires Contains(msg, "result") || Contains(msg, "last prediction") || Contains(msg, "my result")
    ensures Reply(msg, latest) == ResultReply(latest)
  {
    ResultPhrasesIff(msg);
    if Contains(msg, "my result") {
      assert Contains(msg, ResultPhrases[1]);
    }
  }

  /** A message with no result phrase that mentions "report" or "pdf" gets the report reply. */
  lemma ReportNext(msg: string, latest: Option<Record>)
    requires !Contains(msg, "result") && !Contains(msg, "last prediction")
    requires Contains(msg, "report") || Contains(msg, "pdf")
    ensures Reply(msg, latest) == ReportReply(latest)
  {
    ResultPhrasesIff(msg);
    ReportPhrasesIff(msg);
  }

  /** Otherwise the reply is the value of the first table key in the message, in table
      order, and the fallback when no key occurs. */
  lemma TableOrder(msg: string, latest: Option<Record>, i: nat)
    requires !Contains(msg, "result") && !Contains(msg, "last prediction")
    requires !Contains(msg, "report") && !Contains(msg, "pdf")
    requires i <= |Responses|
    requires i < |Responses| ==> Contains(msg, Responses[i].0)
    requires forall j :: 0 <= j < i ==> !Contains(msg, Responses[j].0)
    ensures Reply(msg, latest) == if i < |Responses| then Responses[i].1 else Fallback
  {
    ResultPhrasesIff(msg);
    ReportPhrasesIff(msg);
    var h := FirstHit(Responses, msg);
    assert h == i;
  }

  /** The table's reply is the value of the entry at `i` when `i` is the first entry
      whose key occurs, and the fallback when `i` is past the end. */
  lemma KeywordReplyAt(msg: string, i: nat)
    requires i <= |Responses|
    requires i < |Responses| ==> Contains(msg, Responses[i].0)
    requires forall j :: 0 <= j < i ==> !Contains(msg, Responses[j].0)
    ensures KeywordReply(msg) == if i < |Responses| then Responses[i].1 else Fallback
  {
    var h := FirstHit(Responses, msg);
    assert h == i;
  }

  /** No other table entry carries the reply of the "report" entry. */
  lemma ReportHelpIsUnique(j: nat)
    requires j < |Responses| && j != ReportEntry
    ensures Responses[j].1 != ReportHelpReply
  {
    if j == 0 {
      assert HelloReply[84] != ReportHelpReply[84];
    }
  }

  /** The "report" table entry never fires: a message the table would answer with it
      mentions "report" and has already been answered by the report check, so a
      reply taken from the table is never the entry's text. */
  lemma ReportEntryUnreachable(msg: string, latest: Option<Record>)
    ensures FirstHit(Responses, msg) == ReportEntry ==> AnyIn(ReportPhrases, msg)
    ensures !AnyIn(ResultPhrases, msg) && !AnyIn(ReportPhrases, msg) ==> Reply(msg, latest) != ReportHelpReply
  {
    ReportPhrasesIff(msg);
    var h := FirstHit(Responses, msg);
    assert !AnyIn(ReportPhrases, msg) ==> h != ReportEntry;
    if h < |Responses| && h != ReportEntry {
      ReportHelpIsUnique(h);
    }
  }

  /** No message and no slot content produce the reply of the "report" entry: the
      table never reaches it, and every other reply starts with a different character. */
  lemma NoReplyIsReportHelp(msg: string, latest: Option<Record>)
    ensures Reply(msg, latest) != ReportHelpReply
  {
    ReportEntryUnreachable(msg, latest);
    assert ReportHelpReply[0] == 'A';
    var r := Reply(msg, latest);
    if AnyIn(ResultPhrases, msg) {
      assert latest.Some? ==> r[0] == PredictionLead[0];
      assert latest.None? ==> r[0] == 'N';
    } else if AnyIn(ReportPhrases, msg) {
      assert latest.Some? ==> r[0] == DownloadLead[0];
      assert latest.None? ==> r[0] == 'N';
    }
  }

  /** An absent message is the empty text, which matches nothing and gets the fallback. */
  lemma MissingMessageFallsBack(latest: Option<Record>)
    ensures Normalize(None) == ""
    ensures Reply(Normalize(None), latest) == Fallback
  {
    var msg: string := "";
    assert Lower(msg) == msg;
    MissingChar(msg, "result", 0);
    MissingChar(msg, "last prediction", 0);
    MissingChar(msg, "report", 0);
    MissingChar(msg, "pdf", 0);
    ResultPhrasesIff(msg);
    ReportPhrasesIff(msg);
    forall j | 0 <= j < |Responses| ensures !Contains(msg, Responses[j].0) {
      MissingChar(msg, Responses[j].0, 0);
    }
    KeywordReplyAt(msg, |Responses|);
  }

  /** "hello" is greeted by the first table entry. */
  lemma HelloExample(latest: Option<Record>)
    ensures Reply("hello", latest) == HelloReply
  {
    var msg := "hello";
    MissingChar(msg, "result", 0);
    MissingChar(msg, "last prediction", 1);
    MissingChar(msg, "report", 0);
    MissingChar(msg, "pdf", 0);
    ContainsSelf(msg);
    TableOrder(msg, latest, 0);
  }

  /** "thank you" passes over every earlier key, "thanks" included, and reaches the
      last table entry. */
  lemma ThankYouExample(latest: Option<Record>)
    ensures Reply("thank you", latest) == ThankYouReply
  {
    var msg := "thank you";
    MissingChar(msg, "result", 0);
    MissingChar(msg, "last prediction", 0);
    MissingChar(msg, "report", 0);
    MissingChar(msg, "pdf", 0);
    ResultPhrasesIff(msg);
    ReportPhrasesIff(msg);
    ThankYouTable();
  }

  lemma ThankYouTable()
    ensures KeywordReply("thank you") == ThankYouReply
  {
    var msg := "thank you";
    forall j | 0 <= j < 7
      ensures !Contains(msg, Responses[j].0)
    {
      var key := Responses[j].0;
      if j == 0 { MissingChar(msg, key, 1); }
      else if j == 1 { MissingChar(msg, key, 1); }
      else if j == 5 { MissingChar(msg, key, 2); }
      else if j == 6 { MissingChar(msg, key, 5); }
      else { MissingChar(msg, key, 0); }
    }
    ContainsSelf(msg);
    KeywordReplyAt(msg, 7);
  }

  /** One of the questions the "how" entry suggests is answered by the report check
      instead, because it mentions "report". */
  lemma SuggestedQuestionExample(latest: Option<Record>)
    ensures Reply("how to download report?", latest) == ReportReply(latest)
  {
    var msg := "how to download report?";
    MissingChar(msg, "result", 2);
    MissingChar(msg, "last prediction", 2);
    assert msg[16..22] == "report";
    ContainsAt(msg, "report", 16);
    ReportNext(msg, latest);
  }
}
