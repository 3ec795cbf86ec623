/** String operations the application relies on, stated for `seq<char>`:
    Python's substring test `k in s`, `str.lower` and `str.strip`, each with the facts
    the rest of the model needs about it; and splitting on a separator, which the
    application does not call itself but which stands for the way the report route
    matches a path segment by segment. */
module Text {

  // ---------------------------------------------------------------------------
  // Substring containment (Python's `k in s` on two strings)
  // ---------------------------------------------------------------------------

  /** `t` begins with `p` (Python's `t.startswith(p)`). */
  predicate StartsWith(t: string, p: string)
  {
    |p| <= |t| && t[..|p|] == p
  }

  /** `k` occurs somewhere in `s` as a contiguous block (Python's `k in s`). */
  predicate Contains(s: string, k: string)
  {
    exists i :: 0 <= i <= |s| && StartsWith(s[i..], k)
  }

  /** An occurrence of `k` at position `i` makes `s` contain `k`. */
  lemma ContainsAt(s: string, k: string, i: nat)
    requires i + |k| <= |s| && s[i..i + |k|] == k
    ensures Contains(s, k)
  {
    assert s[i..][..|k|] == s[i..i + |k|];
  }

  /** Every containment has a position where `k` starts. */
  lemma Occurrence(s: string, k: string) returns (i: nat)
    requires Contains(s, k)
    ensures i + |k| <= |s| && s[i..i + |k|] == k
  {
    i :| 0 <= i <= |s| && StartsWith(s[i..], k);
    assert s[i..][..|k|] == s[i..i + |k|];
  }

  /** Containment is transitive: a text holding `m` holds everything `m` holds. */
  lemma ContainsTrans(s: string, m: string, k: string)
    requires Contains(s, m) && Contains(m, k)
    ensures Contains(s, k)
  {
    var i := Occurrence(s, m);
    var j := Occurrence(m, k);
    forall x | 0 <= x < |k| ensures s[i + j + x] == k[x] {
      assert s[i + j + x] == s[i..i + |m|][j + x];
      assert m[j + x] == m[j..j + |k|][x];
    }
    assert s[i + j..i + j + |k|] == k;
    ContainsAt(s, k, i + j);
  }

  /** Every character of a contained text is a character of the container. */
  lemma OccurrenceChars(s: string, k: string)
    ensures Contains(s, k) ==> forall j :: 0 <= j < |k| ==> k[j] in s
  {
    if Contains(s, k) {
      var i := Occurrence(s, k);
      forall j | 0 <= j < |k| ensures k[j] in s {
        assert s[i + j] == s[i..i + |k|][j];
      }
    }
  }

  /** A text lacking one of the characters of `k` cannot contain `k`. */
  lemma MissingChar(s: string, k: string, j: nat)
    requires j < |k| && k[j] !in s
    ensures !Contains(s, k)
  {
    OccurrenceChars(s, k);
  }

  /** A text contains itself. */
  lemma ContainsSelf(s: string)
    ensures Contains(s, s)
  {
    ContainsAt(s, s, 0);
  }

  // ---------------------------------------------------------------------------
  // Lower-casing (Python's `str.lower`, ASCII letters only)
  // ---------------------------------------------------------------------------

  function LowerChar(c: char): char
  {
    if 'A' <= c <= 'Z' then (c as int - 'A' as int + 'a' as int) as char else c
  }

  /** Each character lower-cased in place; nothing is added, dropped or moved. */
  function Lower(s: string): (r: string)
    ensures |r| == |s|
    ensures forall i :: 0 <= i < |s| ==> r[i] == LowerChar(s[i])
  {
    if s == [] then [] else [LowerChar(s[0])] + Lower(s[1..])
  }

  /** A text without ASCII capitals is its own lower-case form. */
  lemma {:induction false} LowerNoCapital(s: string)
    requires forall i :: 0 <= i < |s| ==> !('A' <= s[i] <= 'Z')
    ensures Lower(s) == s
  {
    if s != [] {
      LowerNoCapital(s[1..]);
      assert [s[0]] + s[1..] == s;
    }
  }

  /** Stripping a text without ASCII capitals leaves none, so lower-casing the result
      changes nothing. */
  lemma StripNoCapital(t: string)
    requires forall i :: 0 <= i < |t| ==> !('A' <= t[i] <= 'Z')
    ensures forall i :: 0 <= i < |Strip(t)| ==> !('A' <= Strip(t)[i] <= 'Z')
    ensures Lower(Strip(t)) == Strip(t)
  {
    var n := Strip(t);
    forall i | 0 <= i < |n| ensures !('A' <= n[i] <= 'Z') {
      assert n[i] == t[Leading(t) + i];
    }
    LowerNoCapital(n);
  }

  /** After lower-casing no ASCII capital is left, and lower-casing again changes nothing. */
  lemma LowerIsLower(s: string)
    ensures forall i :: 0 <= i < |s| ==> !('A' <= Lower(s)[i] <= 'Z')
    ensures Lower(Lower(s)) == Lower(s)
  {
  }

  // ---------------------------------------------------------------------------
  // Trimming (Python's `str.strip()` with no argument)
  // ---------------------------------------------------------------------------

  /** Python's `str.isspace`: the characters `str.strip()` removes. */
  predicate IsSpace(c: char)
  {
    c in {'\t', '\n', '\U{0B}', '\U{0C}', '\r', '\U{1C}', '\U{1D}', '\U{1E}', '\U{1F}', ' ',
          '\U{85}', '\U{A0}', '\U{1680}', '\U{2028}', '\U{2029}', '\U{202F}', '\U{205F}', '\U{3000}'}
    || ('\U{2000}' <= c <= '\U{200A}')
  }

  /** Drops leading whitespace: the result is a suffix of `s`, everything dropped is
      whitespace, and the result does not start with whitespace. */
  function TrimStart(s: string): (r: string)
    ensures |r| <= |s| && r == s[|s| - |r|..]
    ensures forall k :: 0 <= k < |s| - |r| ==> IsSpace(s[k])
    ensures r == [] || !IsSpace(r[0])
  {
    if s != [] && IsSpace(s[0]) then TrimStart(s[1..]) else s
  }

  /** Drops trailing whitespace: the result is a prefix of `s`, everything dropped is
      whitespace, and the result does not end with whitespace. */
  function TrimEnd(s: string): (r: string)
    ensures |r| <= |s| && r == s[..|r|]
    ensures forall k :: |r| <= k < |s| ==> IsSpace(s[k])
    ensures r == [] || !IsSpace(r[|r| - 1])
  {
    if s != [] && IsSpace(s[|s| - 1]) then TrimEnd(s[..|s| - 1]) else s
  }

  /** The number of whitespace characters `s` starts with. */
  function Leading(s: string): nat
  {
    |s| - |TrimStart(s)|
  }

  /** `s.strip()`: the block of `s` that starts after its leading whitespace, with
      only whitespace after it, and neither starting nor ending with whitespace. */
  function Strip(s: string): (r: string)
    ensures Leading(s) + |r| <= |s| && r == s[Leading(s)..Leading(s) + |r|]
    ensures forall k :: 0 <= k < Leading(s) ==> IsSpace(s[k])
    ensures forall k :: Leading(s) + |r| <= k < |s| ==> IsSpace(s[k])
    ensures r == [] || (!IsSpace(r[0]) && !IsSpace(r[|r| - 1]))
  {
    TrimEnd(TrimStart(s))
  }

  /** Stripping a text without whitespace leaves it as it is. */
  lemma StripNoSpace(s: string)
    requires forall k :: 0 <= k < |s| ==> !IsSpace(s[k])
    ensures Strip(s) == s
  {
  }

  /** Stripping twice is stripping once. */
  lemma StripIdempotent(s: string)
    ensures Strip(Strip(s)) == Strip(s)
  {
    var t := Strip(s);
    if t != [] {
      assert TrimStart(t) == t;
    }
  }

  // ---------------------------------------------------------------------------
  // Splitting on a separator and joining back (the route matcher's view of a path)
  // ---------------------------------------------------------------------------

  /** The pieces of `s` between occurrences of `d`; never empty, no piece holds `d`. */
  function Split(s: string, d: char): (r: seq<string>)
    ensures |r| >= 1
    ensures forall i :: 0 <= i < |r| ==> d !in r[i]
    decreases |s|
  {
    if s == [] then [[]]
    else
      var rest := Split(s[1..], d);
      if s[0] == d then [[]] + rest else [[s[0]] + rest[0]] + rest[1..]
  }

  /** The pieces glued back together with `d` between neighbours (`d.join(parts)`). */
  function Join(parts: seq<string>, d: char): string
    requires |parts| >= 1
  {
    if |parts| == 1 then parts[0] else parts[0] + [d] + Join(parts[1..], d)
  }

  /** Joining the pieces of a split gives back the original text. */
  lemma {:induction false} JoinSplit(s: string, d: char)
    ensures Join(Split(s, d), d) == s
    decreases |s|
  {
    if s != [] {
      var rest := Split(s[1..], d);
      JoinSplit(s[1..], d);
      if s[0] != d {
        var r := Split(s, d);
        if |rest| > 1 {
          assert r[1..] == rest[1..];
        }
      }
    }
  }

  /** Splitting around one separator splits each side on its own. */
  lemma {:induction false} SplitAround(a: string, d: char, b: string)
    ensures Split(a + [d] + b, d) == Split(a, d) + Split(b, d)
    decreases |a|
  {
    if a == [] {
      assert a + [d] + b == [d] + b;
      assert ([d] + b)[1..] == b;
    } else {
      assert (a + [d] + b)[1..] == a[1..] + [d] + b;
      assert (a + [d] + b)[0] == a[0];
      SplitAround(a[1..], d, b);
    }
  }

  /** A text without the separator is a single piece. */
  lemma {:induction false} SplitNoSeparator(s: string, d: char)
    requires d !in s
    ensures Split(s, d) == [s]
    decreases |s|
  {
    if s != [] {
      assert s[0] != d && d !in s[1..];
      SplitNoSeparator(s[1..], d);
      assert [s[0]] + s[1..] == s;
    }
  }

  /** A text is a single piece exactly when it has no separator. */
  lemma SinglePieceIff(s: string, d: char)
    ensures |Split(s, d)| == 1 <==> d !in s
  {
    if d in s {
      var i :| 0 <= i < |s| && s[i] == d;
      assert s == s[..i] + [d] + s[i + 1..];
      SplitAround(s[..i], d, s[i + 1..]);
    } else {
      SplitNoSeparator(s, d);
    }
  }
}
