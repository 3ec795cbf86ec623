/** The report download route `/report/<patient_name>/<age>/<gender>/<filename>/<result>/<confidence>`:
    the link the chatbot builds for it and the way the route takes a path apart. */
module Routes {
  import opened Wrappers
  import opened Text

  /** The six values the report route receives as path segments. */
  datatype ReportArgs = ReportArgs(
    patientName: string,
    age: string,
    gender: string,
    filename: string,
    result: string,
    confidence: string)

  function Segments(a: ReportArgs): (r: seq<string>)
    ensures |r| == 6
  {
    [a.patientName, a.age, a.gender, a.filename, a.result, a.confidence]
  }

  /** `url_for('report', ...)`: the route's path with the six values as its segments,
      written without percent-encoding. */
  function ReportLink(a: ReportArgs): string
  {
    Join(["", "report"] + Segments(a), '/')
  }

  /** What a `<name>` placeholder of the route accepts: a non-empty text without '/'. */
  predicate SegmentOk(s: string)
  {
    s != [] && '/' !in s
  }

  /** All six values fit into a segment of their own. */
  predicate Routable(a: ReportArgs)
  {
    forall i :: 0 <= i < 6 ==> SegmentOk(Segments(a)[i])
  }

  /** Matching a request path against the route: eight '/'-separated pieces, the first
      empty, the second "report", the other six non-empty. */
  function ParseReportPath(path: string): Option<ReportArgs>
  {
    var parts := Split(path, '/');
    if |parts| == 8 && parts[0] == [] && parts[1] == "report" && forall i :: 2 <= i < 8 ==> parts[i] != []
    then Some(ReportArgs(parts[2], parts[3], parts[4], parts[5], parts[6], parts[7]))
    else None
  }

  /** Splitting a join yields at least the joined pieces; exactly them when no piece
      holds the separator, and more of them otherwise. */
  lemma {:induction false} SplitJoin(ps: seq<string>, d: char)
    requires |ps| >= 1
    ensures |Split(Join(ps, d), d)| >= |ps|
    ensures (forall i :: 0 <= i < |ps| ==> d !in ps[i]) ==> Split(Join(ps, d), d) == ps
    ensures |Split(Join(ps, d), d)| == |ps| ==> forall i :: 0 <= i < |ps| ==> d !in ps[i]
    decreases |ps|
  {
    if |ps| == 1 {
      SinglePieceIff(ps[0], d);
      if d !in ps[0] {
        SplitNoSeparator(ps[0], d);
      }
    } else {
      var rest := ps[1..];
      SplitAround(ps[0], d, Join(rest, d));
      SplitJoin(rest, d);
      SinglePieceIff(ps[0], d);
      if forall i :: 0 <= i < |ps| ==> d !in ps[i] {
        assert forall i :: 0 <= i < |rest| ==> d !in rest[i];
        SplitNoSeparator(ps[0], d);
        assert ps == [ps[0]] + rest;
      }
      if |Split(Join(ps, d), d)| == |ps| {
        forall i | 0 <= i < |ps| ensures d !in ps[i] {
          if i > 0 {
            assert ps[i] == rest[i - 1];
          }
        }
      }
    }
  }

  /** The route receives exactly the values the link was built from when every value
      is a proper segment, and does not match the link at all otherwise. */
  lemma LinkRoundTrip(a: ReportArgs)
    ensures ParseReportPath(ReportLink(a)) == if Routable(a) then Some(a) else None
  {
    var ps := ["", "report"] + Segments(a);
    SplitJoin(ps, '/');
    var parts := Split(ReportLink(a), '/');
    assert forall i :: 2 <= i < 8 ==> ps[i] == Segments(a)[i - 2];
    var free := forall i :: 0 <= i < 8 ==> '/' !in ps[i];
    assert Routable(a) ==> free;
    if free {
      assert parts == ps;
      assert Routable(a) <==> forall i :: 2 <= i < 8 ==> parts[i] != [];
    } else {
      assert |parts| != 8;
    }
  }

  /** Every path the route matches is the link of the values it extracts. */
  lemma ParsedPathIsLink(path: string)
    ensures ParseReportPath(path).Some? ==> ReportLink(ParseReportPath(path).value) == path
  {
    var parts := Split(path, '/');
    if ParseReportPath(path).Some? {
      JoinSplit(path, '/');
      assert ["", "report"] + Segments(ParseReportPath(path).value) == parts;
    }
  }
}
