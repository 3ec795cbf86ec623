/** The pure parts of report generation: the file-system-safe patient token, the
    timestamp in the file name, the report file name, and the impression sentence. */
module Reports {
  import opened Text

  // ---------------------------------------------------------------------------
  // Safe patient name
  // ---------------------------------------------------------------------------

  /** Python's `c.isalnum()`, restricted to ASCII letters and digits. */
  predicate IsAlnum(c: char)
  {
    ('a' <= c <= 'z') || ('A' <= c <= 'Z') || ('0' <= c <= '9')
  }

  /** The characters that survive into the report file name. */
  predicate KeepChar(c: char)
  {
    IsAlnum(c) || c == '_' || c == '-'
  }

  /** The kept characters of `s`, in their original order; never longer than `s` and
      made only of kept characters. */
  function Keep(s: string): (r: string)
    ensures |r| <= |s|
    ensures forall i :: 0 <= i < |r| ==> KeepChar(r[i])
  {
    if s == [] then [] else (if KeepChar(s[0]) then [s[0]] else []) + Keep(s[1..])
  }

  /** Nothing kept is lost: each kept character occurs in the result as often as in
      `s`, and no other character occurs in it at all. */
  lemma {:induction false} KeepCounts(s: string, c: char)
    ensures multiset(Keep(s))[c] == if KeepChar(c) then multiset(s)[c] else 0
  {
    if s != [] {
      KeepCounts(s[1..], c);
      assert s == [s[0]] + s[1..];
    }
  }

  /** `r` can be obtained from `s` by deleting characters. */
  predicate IsSubsequence(r: string, s: string)
    decreases |s|
  {
    r == [] || (s != [] && if r[0] == s[0] then IsSubsequence(r[1..], s[1..]) else IsSubsequence(r, s[1..]))
  }

  /** Filtering keeps the order: the kept characters are a subsequence of the input. */
  lemma {:induction false} KeepIsSubsequence(s: string)
    ensures IsSubsequence(Keep(s), s)
  {
    if s != [] {
      KeepIsSubsequence(s[1..]);
      if !KeepChar(s[0]) {
        var r := Keep(s);
        assert r == Keep(s[1..]);
        assert r != [] ==> r[0] != s[0];
      }
    }
  }

  /** Filtering a text made only of kept characters gives it back unchanged. */
  lemma {:induction false} KeepAllKept(s: string)
    requires forall i :: 0 <= i < |s| ==> KeepChar(s[i])
    ensures Keep(s) == s
  {
    if s != [] {
      KeepAllKept(s[1..]);
      assert [s[0]] + s[1..] == s;
    }
  }

  /** No kept character is whitespace, so `strip()` after the filter removes nothing. */
  lemma KeptHasNoSpace(s: string)
    ensures Strip(Keep(s)) == Keep(s)
  {
    var k := Keep(s);
    forall i | 0 <= i < |k| ensures !IsSpace(k[i]) {
      assert KeepChar(k[i]);
    }
    StripNoSpace(k);
  }

  const DefaultName: string := "patient"

  /** The default name is itself made of kept characters. */
  lemma DefaultNameIsKept()
    ensures forall i :: 0 <= i < |DefaultName| ==> KeepChar(DefaultName[i])
  {
    assert Keep(DefaultName) == DefaultName;
  }

  /** Python's `s or "patient"`: the text itself unless it is empty. */
  function OrDefault(s: string): string
  {
    if s == [] then DefaultName else s
  }

  /** `"".join(c for c in name if c.isalnum() or c in ('_', '-')).strip() or "patient"`.
      Never empty, made only of kept characters, the filtered name when anything of
      the input is kept and the default otherwise. */
  function SafeName(name: string): (r: string)
    ensures r != []
    ensures forall i :: 0 <= i < |r| ==> KeepChar(r[i])
    ensures Keep(name) != [] ==> r == Keep(name)
    ensures Keep(name) == [] ==> r == DefaultName
  {
    var kept := Keep(name);
    KeptHasNoSpace(name);
    DefaultNameIsKept();
    OrDefault(Strip(kept))
  }

  /** The result is the default exactly when nothing is kept or what is kept is
      itself the default word. */
  lemma SafeNameIsDefault(name: string)
    ensures SafeName(name) == DefaultName <==> (Keep(name) == [] || Keep(name) == DefaultName)
  {
  }

  /** Sanitising an already sanitised name changes nothing. */
  lemma SafeNameIdempotent(name: string)
    ensures SafeName(SafeName(name)) == SafeName(name)
  {
    KeepAllKept(SafeName(name));
  }

  /** Filtering a concatenation filters each part. */
  lemma {:induction false} KeepConcat(a: string, b: string)
    ensures Keep(a + b) == Keep(a) + Keep(b)
    decreases |a|
  {
    if a == [] {
      assert a + b == b;
    } else {
      assert (a + b)[0] == a[0] && (a + b)[1..] == a[1..] + b;
      KeepConcat(a[1..], b);
      var head := if KeepChar(a[0]) then [a[0]] else [];
      assert Keep(a + b) == head + (Keep(a[1..]) + Keep(b));
    }
  }

  /** A name with a space and punctuation keeps only its letters. */
  lemma SafeNameExample()
    ensures SafeName("Jo Li!") == "JoLi"
  {
    assert Keep("i!") == "i";
    assert Keep("Li!") == "Li";
    assert Keep(" Li!") == "Li";
    assert Keep("Jo Li!") == "JoLi";
  }

  // ---------------------------------------------------------------------------
  // Timestamp: datetime.now().strftime('%Y%m%d_%H%M%S')
  // ---------------------------------------------------------------------------

  /** A calendar date and time of day, as `datetime` holds it. */
  datatype DateTime = DateTime(year: nat, month: nat, day: nat, hour: nat, minute: nat, second: nat)
  {
    /** The ranges `datetime` enforces; the year is restricted to four digits. */
    predicate Valid()
    {
      1000 <= year <= 9999 && 1 <= month <= 12 && 1 <= day <= 31 &&
      hour < 24 && minute < 60 && second < 60
    }
  }

  function Pow10(w: nat): (p: nat)
    ensures p >= 1
  {
    if w == 0 then 1 else 10 * Pow10(w - 1)
  }

  predicate IsDigit(c: char)
  {
    '0' <= c <= '9'
  }

  /** `n` written in decimal with leading zeros to exactly `w` digits. */
  function Pad(n: nat, w: nat): (r: string)
    requires n < Pow10(w)
    ensures |r| == w
    ensures forall i :: 0 <= i < |r| ==> IsDigit(r[i])
  {
    if w == 0 then [] else Pad(n / 10, w - 1) + [('0' as int + n % 10) as char]
  }

  /** The number a string of decimal digits denotes. */
  function Value(s: string): nat
    requires forall i :: 0 <= i < |s| ==> IsDigit(s[i])
  {
    if s == [] then 0
    else
      var last := s[|s| - 1];
      assert IsDigit(last);
      10 * Value(s[..|s| - 1]) + (last as int - '0' as int)
  }

  /** Reading back a zero-padded number gives the number. */
  lemma {:induction false} ValuePad(n: nat, w: nat)
    requires n < Pow10(w)
    ensures Value(Pad(n, w)) == n
  {
    if w > 0 {
      ValuePad(n / 10, w - 1);
      var r := Pad(n, w);
      assert r[..|r| - 1] == Pad(n / 10, w - 1);
    }
  }

  /** The fifteen-character stamp `YYYYMMDD_HHMMSS`. */
  function Stamp(t: DateTime): (r: string)
    requires t.Valid()
    ensures |r| == 15 && r[8] == '_'
    ensures forall i :: 0 <= i < 15 && i != 8 ==> IsDigit(r[i])
  {
    Pad(t.year, 4) + Pad(t.month, 2) + Pad(t.day, 2) + "_" +
    Pad(t.hour, 2) + Pad(t.minute, 2) + Pad(t.second, 2)
  }

  /** A stamp is made of file-name characters. */
  lemma StampChars(t: DateTime)
    requires t.Valid()
    ensures forall i :: 0 <= i < 15 ==> FileNameChar(Stamp(t)[i])
  {
  }

  /** Reading the fields back out of a stamp. */
  function ParseStamp(s: string): DateTime
    requires |s| == 15
    requires forall i :: 0 <= i < 15 && i != 8 ==> IsDigit(s[i])
  {
    DateTime(Value(s[0..4]), Value(s[4..6]), Value(s[6..8]),
             Value(s[9..11]), Value(s[11..13]), Value(s[13..15]))
  }

  /** The stamp loses nothing: it can be read back into the same date and time. */
  lemma StampRoundTrip(t: DateTime)
    requires t.Valid()
    ensures ParseStamp(Stamp(t)) == t
  {
    var s := Stamp(t);
    var date := Pad(t.year, 4) + Pad(t.month, 2) + Pad(t.day, 2);
    var time := Pad(t.hour, 2) + Pad(t.minute, 2) + Pad(t.second, 2);
    assert s == date + "_" + time;
    assert s[0..4] == date[0..4] == Pad(t.year, 4);
    assert s[4..6] == date[4..6] == Pad(t.month, 2);
    assert s[6..8] == date[6..8] == Pad(t.day, 2);
    assert s[9..11] == time[0..2] == Pad(t.hour, 2);
    assert s[11..13] == time[2..4] == Pad(t.minute, 2);
    assert s[13..15] == time[4..6] == Pad(t.second, 2);
    ValuePad(t.year, 4);
    ValuePad(t.month, 2);
    ValuePad(t.day, 2);
    ValuePad(t.hour, 2);
    ValuePad(t.minute, 2);
    ValuePad(t.second, 2);
  }

  // ---------------------------------------------------------------------------
  // Report file name: f"Report_{timestamp}_{safe_name}.pdf"
  // ---------------------------------------------------------------------------

  /** A file-name character: a kept character or the dot of the extension. */
  predicate FileNameChar(c: char)
  {
    KeepChar(c) || c == '.'
  }

  /** `f"Report_{stamp}_{safe}.pdf"`, with each part at a fixed position. */
  function Assemble(stamp: string, safe: string): (r: string)
    requires |stamp| == 15
    ensures |r| == 27 + |safe|
    ensures r[..7] == "Report_" && r[7..22] == stamp && r[22] == '_'
    ensures r[23..|r| - 4] == safe && r[|r| - 4..] == ".pdf"
  {
    var head := "Report_" + stamp + "_";
    var r := head + safe + ".pdf";
    assert r[..23] == head;
    assert head[..7] == "Report_" && head[7..22] == stamp;
    r
  }

  /** Every character of an assembled name is a file-name character when the stamp
      and the safe part are. */
  lemma AssembleChars(stamp: string, safe: string)
    requires |stamp| == 15 && forall i :: 0 <= i < 15 ==> FileNameChar(stamp[i])
    requires forall i :: 0 <= i < |safe| ==> KeepChar(safe[i])
    ensures forall i :: 0 <= i < |Assemble(stamp, safe)| ==> FileNameChar(Assemble(stamp, safe)[i])
    ensures '/' !in Assemble(stamp, safe)
  {
    var r := Assemble(stamp, safe);
    forall i | 0 <= i < |r| ensures FileNameChar(r[i]) {
      if i < 7 {
        assert r[i] == r[..7][i];
      } else if i < 22 {
        assert r[i] == r[7..22][i - 7];
      } else if i == 22 {
      } else if i < |r| - 4 {
        assert r[i] == r[23..|r| - 4][i - 23];
      } else {
        assert r[i] == r[|r| - 4..][i - (|r| - 4)];
      }
    }
  }

  /** The report's file name for a patient at a moment: "Report_", then the stamp,
      an underscore, the safe name and ".pdf", each at a fixed position. */
  function ReportName(now: DateTime, patientName: string): (r: string)
    requires now.Valid()
    ensures |r| == 27 + |SafeName(patientName)|
    ensures r[..7] == "Report_" && r[7..22] == Stamp(now) && r[22] == '_'
    ensures r[23..|r| - 4] == SafeName(patientName) && r[|r| - 4..] == ".pdf"
  {
    Assemble(Stamp(now), SafeName(patientName))
  }

  /** A report file name holds only kept characters and dots, so no path separator:
      the report always lands inside the reports folder. */
  lemma ReportNameChars(now: DateTime, patientName: string)
    requires now.Valid()
    ensures forall i :: 0 <= i < |ReportName(now, patientName)| ==> FileNameChar(ReportName(now, patientName)[i])
    ensures '/' !in ReportName(now, patientName)
  {
    StampChars(now);
    AssembleChars(Stamp(now), SafeName(patientName));
  }

  /** Two reports get the same file name only when they are made in the same second
      for the same safe name; reports made at different seconds never collide. */
  lemma ReportNameInjective(t1: DateTime, n1: string, t2: DateTime, n2: string)
    requires t1.Valid() && t2.Valid()
    ensures ReportName(t1, n1) == ReportName(t2, n2) <==> t1 == t2 && SafeName(n1) == SafeName(n2)
  {
    var r1, r2 := ReportName(t1, n1), ReportName(t2, n2);
    if r1 == r2 {
      StampRoundTrip(t1);
      StampRoundTrip(t2);
      assert Stamp(t1) == r1[7..22] == Stamp(t2);
      assert SafeName(n1) == r1[23..|r1| - 4] == SafeName(n2);
    }
  }

  // ---------------------------------------------------------------------------
  // Impression sentence
  // ---------------------------------------------------------------------------

  const PneumoniaImpression: string := "Findings consistent with pneumonia. Clinical correlation advised."
  const ClearImpression: string := "No signs of pneumonia detected."

  /** The impression line of the report: the pneumonia sentence exactly when the
      result text is "PNEUMONIA" (case-sensitive), the all-clear sentence for any
      other text. */
  function Impression(result: string): (r: string)
    ensures r == PneumoniaImpression || r == ClearImpression
    ensures r == PneumoniaImpression <==> result == "PNEUMONIA"
  {
    if result == "PNEUMONIA" then PneumoniaImpression else ClearImpression
  }
}
