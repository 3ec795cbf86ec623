/** How the chat page's script shows a reply: as a "Download Report" link when it
    recognises one, as plain text otherwise. Only the link test is modelled. */
module ChatWidget {
  import opened Wrappers
  import opened Text
  import opened Prediction
  import opened Routes
  import opened Chatbot

  /** The path prefix of the report route. */
  const RoutePrefix: string := "/report"

  /** The script's test as written: a reply that starts with the route prefix is made
      a link to itself; any other reply is shown as text. */
  function LinkAsWritten(reply: string): Option<string>
  {
    if StartsWith(reply, RoutePrefix) then Some(reply) else None
  }

  /** The download reply for a stored record starts with its lead sentence, so the
      script as written never turns it into a link. */
  lemma DownloadReplyIsNeverALink(rec: Record)
    ensures LinkAsWritten(ReportReply(Some(rec))) == None
  {
    var r := ReportReply(Some(rec));
    assert r[0] == DownloadLead[0];
    assert DownloadLead[0] != '/';
  }

  /** The corrected test: a reply made of the download lead and a text links to that
      text; a bare route path still links to itself. */
  function LinkCorrected(reply: string): Option<string>
  {
    if StartsWith(reply, DownloadLead) then Some(reply[|DownloadLead|..]) else LinkAsWritten(reply)
  }

  /** With the corrected test the download reply links to the report route with the
      stored record's values, which the route accepts exactly when every value is a
      proper path segment; replies the script already linked keep their link. */
  lemma DownloadReplyLinksToReport(rec: Record, reply: string)
    ensures LinkCorrected(ReportReply(Some(rec))) == Some(ReportLink(ArgsOf(rec)))
    ensures ParseReportPath(LinkCorrected(ReportReply(Some(rec))).value)
            == if Routable(ArgsOf(rec)) then Some(ArgsOf(rec)) else None
    ensures LinkAsWritten(reply).Some? ==> LinkCorrected(reply) == LinkAsWritten(reply)
  {
    LinkRoundTrip(ArgsOf(rec));
    if StartsWith(reply, RoutePrefix) {
      assert reply[0] == '/' && DownloadLead[0] != '/';
      assert !StartsWith(reply, DownloadLead);
    }
  }
}
