/** Models of the library string operations the diff pipeline relies on:
    Go's strings.Replace (all occurrences), strings.Split, strings.TrimSpace,
    html.EscapeString, and the two regular-expression rewrites of delta.go
    (line-ending normalisation and sentinel restoration), each written as a
    direct recursive function on strings. */
module Text {

  // ---------------------------------------------------------------------
  // Occurrence of a word inside a string
  // ---------------------------------------------------------------------

  /** `w` occurs in `s` at some position. */
  predicate Occurs(s: string, w: string)
    decreases |s|
  {
    |w| <= |s| && (s[..|w|] == w || Occurs(s[1..], w))
  }

  /** No character of `x` appears in `w`. */
  predicate Disjoint(x: string, w: string)
  {
    forall k :: 0 <= k < |x| ==> x[k] !in w
  }

  lemma {:induction false} OccursInSuffix(s: string, n: nat, w: string)
    requires n <= |s|
    requires Occurs(s[n..], w)
    ensures Occurs(s, w)
    decreases n
  {
    if n > 0 {
      assert s[1..][n - 1..] == s[n..];
      OccursInSuffix(s[1..], n - 1, w);
    }
  }

  lemma {:induction false} OccursInPrefix(s: string, n: nat, w: string)
    requires n <= |s|
    requires Occurs(s[..n], w)
    ensures Occurs(s, w)
    decreases n
  {
    assert s[..n][..|w|] == s[..|w|];
    if s[..n][..|w|] != w {
      assert s[..n][1..] == s[1..][..n - 1];
      OccursInPrefix(s[1..], n - 1, w);
    }
  }

  /** A word whose first character is absent from `x` cannot start inside `x`. */
  lemma {:induction false} OccursAfterPrefix(x: string, t: string, w: string)
    requires |w| > 0 && w[0] !in x
    requires Occurs(x + t, w)
    ensures Occurs(t, w)
    decreases |x|
  {
    if |x| > 0 {
      assert (x + t)[..|w|][0] == x[0];
      assert (x + t)[1..] == x[1..] + t;
      OccursAfterPrefix(x[1..], t, w);
    } else {
      assert x + t == t;
    }
  }

  /** A word starting with `c` cannot occur in a string without `c`. */
  lemma {:induction false} NoOccurrenceWithoutFirst(s: string, w: string)
    requires |w| > 0 && w[0] !in s
    ensures !Occurs(s, w)
    decreases |s|
  {
    if |w| <= |s| {
      assert s[..|w|][0] == s[0];
      NoOccurrenceWithoutFirst(s[1..], w);
    }
  }

  /** A one-character word occurs exactly when the character does. */
  lemma {:induction false} OccursChar(s: string, c: char)
    ensures Occurs(s, [c]) <==> c in s
    decreases |s|
  {
    if |s| > 0 {
      OccursChar(s[1..], c);
      assert s == [s[0]] + s[1..];
    }
  }

  // ---------------------------------------------------------------------
  // strings.Replace(s, pat, rep, -1)
  // ---------------------------------------------------------------------

  /** Replaces every non-overlapping occurrence of `pat`, scanning left to right. */
  function ReplaceAll(s: string, pat: string, rep: string): string
    requires |pat| > 0
    decreases |s|
  {
    if |s| < |pat| then s
    else if s[..|pat|] == pat then rep + ReplaceAll(s[|pat|..], pat, rep)
    else [s[0]] + ReplaceAll(s[1..], pat, rep)
  }

  /** Every character of the result comes from the input or from `rep`. */
  lemma {:induction false} ReplaceAllChars(s: string, pat: string, rep: string, c: char)
    requires |pat| > 0
    ensures c in ReplaceAll(s, pat, rep) ==> c in s || c in rep
    decreases |s|
  {
    if |s| >= |pat| {
      if s[..|pat|] == pat {
        ReplaceAllChars(s[|pat|..], pat, rep, c);
      } else {
        ReplaceAllChars(s[1..], pat, rep, c);
      }
    }
  }

  /** If the result begins with a word made of characters foreign to `rep`,
      the input begins with that word too. */
  lemma {:induction false} ReplaceAllPrefix(s: string, pat: string, rep: string, v: string)
    requires |pat| > 0 && |rep| > 0 && Disjoint(rep, v)
    requires |v| <= |ReplaceAll(s, pat, rep)| && ReplaceAll(s, pat, rep)[..|v|] == v
    ensures |v| <= |s| && s[..|v|] == v
    decreases |s|
  {
    if |v| > 0 && |s| >= |pat| {
      assert ReplaceAll(s, pat, rep)[0] == v[0] && rep[0] !in v;
      assert v[0] != rep[0];
      if s[..|pat|] == pat {
        assert false;
      }
      var r := ReplaceAll(s[1..], pat, rep);
      assert ReplaceAll(s, pat, rep)[1..] == r;
      assert r[..|v| - 1] == v[1..];
      ReplaceAllPrefix(s[1..], pat, rep, v[1..]);
    }
  }

  /** Replacement creates no new occurrence of a word foreign to `rep`, and
      leaves no occurrence of `pat` when `pat` is foreign to `rep`. */
  lemma {:induction false} ReplaceAllOccurs(s: string, pat: string, rep: string, w: string)
    requires |pat| > 0 && |rep| > 0 && |w| > 0 && Disjoint(rep, w)
    ensures Occurs(ReplaceAll(s, pat, rep), w) ==> Occurs(s, w) && w != pat
    decreases |s|
  {
    var r := ReplaceAll(s, pat, rep);
    if Occurs(r, w) && |s| >= |pat| {
      if s[..|pat|] == pat {
        OccursAfterPrefix(rep, ReplaceAll(s[|pat|..], pat, rep), w);
        ReplaceAllOccurs(s[|pat|..], pat, rep, w);
        OccursInSuffix(s, |pat|, w);
      } else {
        var t := ReplaceAll(s[1..], pat, rep);
        assert r == [s[0]] + t;
        if r[..|w|] == w {
          assert t[..|w| - 1] == w[1..];
          ReplaceAllPrefix(s[1..], pat, rep, w[1..]);
          assert s[..|w|] == w;
        } else {
          assert r[1..] == t;
          ReplaceAllOccurs(s[1..], pat, rep, w);
          OccursInSuffix(s, 1, w);
        }
      }
    }
  }

  /** With no occurrence of `pat`, replacement is the identity. */
  lemma {:induction false} ReplaceAllAbsent(s: string, pat: string, rep: string)
    requires |pat| > 0 && !Occurs(s, pat)
    ensures ReplaceAll(s, pat, rep) == s
    decreases |s|
  {
    if |s| >= |pat| {
      ReplaceAllAbsent(s[1..], pat, rep);
    }
  }

  /** Without the first character of `pat`, replacement is the identity. */
  lemma ReplaceAllNone(s: string, pat: string, rep: string)
    requires |pat| > 0 && pat[0] !in s
    ensures ReplaceAll(s, pat, rep) == s
  {
    NoOccurrenceWithoutFirst(s, pat);
    ReplaceAllAbsent(s, pat, rep);
  }

  /** A stretch holding no first character of `pat` is copied unchanged. */
  lemma {:induction false} ReplaceAllFree(x: string, y: string, pat: string, rep: string)
    requires |pat| > 0 && pat[0] !in x
    ensures ReplaceAll(x + y, pat, rep) == x + ReplaceAll(y, pat, rep)
    decreases |x|
  {
    if |x| > 0 {
      var s := x + y;
      assert s[0] == x[0] && s[1..] == x[1..] + y;
      if |s| >= |pat| {
        assert s[..|pat|][0] != pat[0];
      }
      ReplaceAllFree(x[1..], y, pat, rep);
      assert x == [x[0]] + x[1..];
    } else {
      assert x + y == y;
    }
  }

  /** An occurrence at the front is replaced, and the scan resumes after it. */
  lemma ReplaceAllHit(y: string, pat: string, rep: string)
    requires |pat| > 0
    ensures ReplaceAll(pat + y, pat, rep) == rep + ReplaceAll(y, pat, rep)
  {
    assert (pat + y)[..|pat|] == pat && (pat + y)[|pat|..] == y;
  }

  /** The leftmost occurrence is the one replaced: the text before it is
      copied, and the scan resumes after it, so occurrences never overlap. */
  lemma {:induction false} ReplaceAllLeftmost(x: string, y: string, pat: string, rep: string)
    requires |pat| > 0
    requires forall k :: 0 <= k < |x| ==> !StartsWith((x + pat + y)[k..], pat)
    ensures ReplaceAll(x + pat + y, pat, rep) == x + rep + ReplaceAll(y, pat, rep)
    decreases |x|
  {
    if |x| == 0 {
      LeftmostAtFront(x, y, pat, rep);
    } else {
      LeftmostShift(x, y, pat);
      ReplaceAllLeftmost(x[1..], y, pat, rep);
      LeftmostCombine(x, y, pat, rep);
    }
  }

  lemma LeftmostAtFront(x: string, y: string, pat: string, rep: string)
    requires |pat| > 0 && |x| == 0
    ensures ReplaceAll(x + pat + y, pat, rep) == x + rep + ReplaceAll(y, pat, rep)
  {
    assert x + pat + y == pat + y;
    ReplaceAllHit(y, pat, rep);
  }

  /** The step of the induction: the first character is copied. */
  lemma LeftmostCombine(x: string, y: string, pat: string, rep: string)
    requires |pat| > 0 && |x| > 0
    requires forall k :: 0 <= k < |x| ==> !StartsWith((x + pat + y)[k..], pat)
    requires ReplaceAll(x[1..] + pat + y, pat, rep) == x[1..] + rep + ReplaceAll(y, pat, rep)
    ensures ReplaceAll(x + pat + y, pat, rep) == x + rep + ReplaceAll(y, pat, rep)
  {
    assert (x + pat + y)[0..] == x + (pat + y) == x + pat + y;
    assert x[1..] + pat + y == x[1..] + (pat + y);
    LeftmostStep(x, pat + y, pat, rep, rep + ReplaceAll(y, pat, rep));
  }

  /** Dropping the first character keeps the occurrence leftmost. */
  lemma LeftmostShift(x: string, y: string, pat: string)
    requires |pat| > 0 && |x| > 0
    requires forall k :: 0 <= k < |x| ==> !StartsWith((x + pat + y)[k..], pat)
    ensures forall k :: 0 <= k < |x[1..]| ==> !StartsWith((x[1..] + pat + y)[k..], pat)
  {
    var s, x' := x + pat + y, x[1..];
    forall k | 0 <= k < |x'|
      ensures !StartsWith((x' + pat + y)[k..], pat)
    {
      assert (x' + pat + y)[k..] == s[k + 1..];
    }
  }

  lemma LeftmostStep(x: string, t: string, pat: string, rep: string, u: string)
    requires |pat| > 0 && |x| > 0 && !StartsWith(x + t, pat)
    requires ReplaceAll(x[1..] + t, pat, rep) == x[1..] + u
    ensures ReplaceAll(x + t, pat, rep) == x + u
  {
    var s := x + t;
    ReplaceAllNotAtFront(s, pat, rep);
    assert s[1..] == x[1..] + t;
    ConsSplit(x, u);
  }

  /** A piece that starts like `pat` but differs from it at position `k`
      (or is followed by too little to hold it), and holds no further first
      character of `pat`, is copied unchanged. */
  lemma ReplaceAllMiss(x: string, y: string, pat: string, rep: string, k: nat)
    requires |pat| > 0 && 0 < |x| && pat[0] !in x[1..]
    requires |x + y| < |pat| || (k < |x + y| && k < |pat| && (x + y)[k] != pat[k])
    ensures ReplaceAll(x + y, pat, rep) == x + ReplaceAll(y, pat, rep)
  {
    if |x + y| < |pat| {
      ReplaceAllShort(x + y, pat, rep);
      ReplaceAllShort(y, pat, rep);
    } else {
      assert (x + y)[..|pat|][k] == (x + y)[k];
      ReplaceAllMissLong(x, y, pat, rep);
    }
  }

  lemma ReplaceAllMissLong(x: string, y: string, pat: string, rep: string)
    requires |pat| > 0 && 0 < |x| && pat[0] !in x[1..]
    requires |x + y| >= |pat| && (x + y)[..|pat|] != pat
    ensures ReplaceAll(x + y, pat, rep) == x + ReplaceAll(y, pat, rep)
  {
    var s := x + y;
    var t := ReplaceAll(y, pat, rep);
    assert s[1..] == x[1..] + y;
    ReplaceAllFree(x[1..], y, pat, rep);
    ReplaceAllSkip(s, pat, rep, x[1..] + t);
    assert s[0] == x[0];
    ConsSplit(x, t);
  }

  lemma ConsSplit(x: string, t: string)
    requires |x| > 0
    ensures [x[0]] + (x[1..] + t) == x + t
  {
    assert x == [x[0]] + x[1..];
  }

  /** A position that does not start `pat` is copied. */
  lemma ReplaceAllSkip(s: string, pat: string, rep: string, u: string)
    requires |pat| > 0 && |s| >= |pat| && s[..|pat|] != pat
    requires ReplaceAll(s[1..], pat, rep) == u
    ensures ReplaceAll(s, pat, rep) == [s[0]] + u
  {
  }

  /** Text shorter than `pat` is copied. */
  lemma ReplaceAllShort(s: string, pat: string, rep: string)
    requires |pat| > |s|
    ensures ReplaceAll(s, pat, rep) == s
  {
  }

  // ---------------------------------------------------------------------
  // strings.Split(s, sep) and its inverse, strings.Join
  // ---------------------------------------------------------------------

  /** Joins `ts` with `sep` between consecutive elements. */
  function Join(ts: seq<string>, sep: char): string
    decreases |ts|
  {
    if |ts| == 0 then ""
    else if |ts| == 1 then ts[0]
    else ts[0] + [sep] + Join(ts[1..], sep)
  }

  /** Joining one more piece appends the separator and that piece. */
  lemma {:induction false} JoinSnoc(ts: seq<string>, t: string, sep: char)
    requires |ts| >= 1
    ensures Join(ts + [t], sep) == Join(ts, sep) + [sep] + t
    decreases |ts|
  {
    var us := ts + [t];
    assert us[0] == ts[0];
    if |ts| == 1 {
      assert us[1..] == [t];
    } else {
      assert us[1..] == ts[1..] + [t];
      JoinSnoc(ts[1..], t, sep);
    }
  }

  /** Splits at every `sep`; the empty string splits into one empty piece. */
  function Split(s: string, sep: char): (r: seq<string>)
    ensures |r| >= 1
    ensures forall k :: 0 <= k < |r| ==> sep !in r[k]
    ensures Join(r, sep) == s
    decreases |s|
  {
    if |s| == 0 then [""]
    else
      var rest := Split(s[1..], sep);
      if s[0] == sep then [""] + rest
      else [[s[0]] + rest[0]] + rest[1..]
  }

  /** Joining pieces whose first piece is non-empty starts with that
      piece's first character, followed by the join with it removed. */
  lemma JoinFirst(ts: seq<string>, sep: char)
    requires |ts| >= 1 && |ts[0]| > 0
    ensures |Join(ts, sep)| > 0 && Join(ts, sep)[0] == ts[0][0]
    ensures Join(ts, sep)[1..] == Join([ts[0][1..]] + ts[1..], sep)
  {
    var ts' := [ts[0][1..]] + ts[1..];
    if |ts| > 1 {
      assert ts'[1..] == ts[1..];
      assert (ts[0] + [sep] + Join(ts[1..], sep))[1..] == ts[0][1..] + [sep] + Join(ts[1..], sep);
    }
  }

  /** Splitting a join of sep-free pieces gives the pieces back. */
  lemma {:induction false} SplitJoin(ts: seq<string>, sep: char)
    requires |ts| >= 1
    requires forall k :: 0 <= k < |ts| ==> sep !in ts[k]
    ensures Split(Join(ts, sep), sep) == ts
    decreases |ts|, |ts[0]|
  {
    var s := Join(ts, sep);
    if |ts[0]| > 0 {
      var ts' := [ts[0][1..]] + ts[1..];
      forall k | 0 <= k < |ts'| ensures sep !in ts'[k] {
        if k > 0 { assert ts'[k] == ts[k]; }
      }
      JoinFirst(ts, sep);
      SplitJoin(ts', sep);
      assert s[0] != sep by { assert s[0] in ts[0]; }
      assert Split(s, sep) == [[s[0]] + ts'[0]] + ts'[1..];
      assert [ts[0][0]] + ts[0][1..] == ts[0];
      assert ts'[1..] == ts[1..];
    } else if |ts| > 1 {
      SplitJoin(ts[1..], sep);
      assert s == [sep] + Join(ts[1..], sep);
      assert s[1..] == Join(ts[1..], sep);
      assert ts == [""] + ts[1..];
    }
  }

  // ---------------------------------------------------------------------
  // strings.TrimSpace, with unicode.IsSpace
  // ---------------------------------------------------------------------

  /** White space as Go's unicode.IsSpace defines it. */
  predicate IsSpace(c: char)
  {
    c == '\t' || c == '\n' || c == '\U{000B}' || c == '\U{000C}' || c == '\r' || c == ' '
    || c == '\U{0085}' || c == '\U{00A0}' || c == '\U{1680}'
    || ('\U{2000}' <= c <= '\U{200A}')
    || c == '\U{2028}' || c == '\U{2029}' || c == '\U{202F}' || c == '\U{205F}' || c == '\U{3000}'
  }

  /** The number of white-space characters `s` starts with. */
  function LeadingSpace(s: string): (n: nat)
    ensures n <= |s|
    ensures forall k :: 0 <= k < n ==> IsSpace(s[k])
    ensures n == |s| || !IsSpace(s[n])
    decreases |s|
  {
    if |s| > 0 && IsSpace(s[0]) then 1 + LeadingSpace(s[1..]) else 0
  }

  /** The index at which the white space `s` ends with begins. */
  function TrailingStart(s: string): (n: nat)
    ensures n <= |s|
    ensures forall k :: n <= k < |s| ==> IsSpace(s[k])
    ensures n == 0 || !IsSpace(s[n - 1])
    decreases |s|
  {
    if |s| > 0 && IsSpace(s[|s| - 1]) then TrailingStart(s[..|s| - 1]) else |s|
  }

  /** `r` is `s[a..b]`, with only white space outside it. */
  predicate TrimmedAt(s: string, r: string, a: int, b: int)
  {
    0 <= a <= b <= |s| && r == s[a..b]
    && (forall k :: 0 <= k < a ==> IsSpace(s[k]))
    && (forall k :: b <= k < |s| ==> IsSpace(s[k]))
  }

  /** Removes leading, then trailing white space: the result is a slice of
      `s` with only white space outside it and none at its ends. */
  function TrimSpace(s: string): (r: string)
    ensures exists a, b :: TrimmedAt(s, r, a, b)
    ensures r == [] || (!IsSpace(r[0]) && !IsSpace(r[|r| - 1]))
  {
    var a := LeadingSpace(s);
    var t := s[a..];
    var n := TrailingStart(t);
    assert TrimmedAt(s, s[a..a + n], a, a + n) by {
      forall k | a + n <= k < |s| ensures IsSpace(s[k]) {
        assert s[k] == t[k - a];
      }
    }
    assert n > 0 ==> s[a + n - 1] == t[n - 1];
    s[a..a + n]
  }

  /** Trimming only removes characters, so it creates no occurrence. */
  lemma TrimSpaceOccurs(s: string, w: string)
    ensures Occurs(TrimSpace(s), w) ==> Occurs(s, w)
  {
    var a := LeadingSpace(s);
    var n := TrailingStart(s[a..]);
    if Occurs(TrimSpace(s), w) {
      assert s[a..][..n] == s[a..a + n];
      OccursInPrefix(s[a..], n, w);
      OccursInSuffix(s, a, w);
    }
  }

  /** Trimming keeps only characters of its input. */
  lemma TrimSpaceChars(s: string, c: char)
    ensures c in TrimSpace(s) ==> c in s
  {
  }

  /** Trimming a string whose ends are not white space changes nothing. */
  lemma TrimSpaceUnchanged(s: string)
    requires s == [] || (!IsSpace(s[0]) && !IsSpace(s[|s| - 1]))
    ensures TrimSpace(s) == s
  {
  }

  /** Trimming drops a trailing space after a string whose ends are not
      white space. */
  lemma TrimTrailingSpace(x: string)
    requires |x| > 0 && !IsSpace(x[0]) && !IsSpace(x[|x| - 1])
    ensures TrimSpace(x + " ") == x
  {
    var s := x + " ";
    var r := TrimSpace(s);
    var a, b :| TrimmedAt(s, r, a, b);
    assert s[0] == x[0] && s[|x| - 1] == x[|x| - 1];
    assert a == 0;
    assert b >= |x|;
    assert s[|s| - 1] == ' ';
    assert s[..|x|] == x;
  }

  // ---------------------------------------------------------------------
  // html.EscapeString and its inverse
  // ---------------------------------------------------------------------

  /** The characters the five entities are written with. */
  predicate IsEntityChar(c: char)
  {
    c == '&' || c == '#' || c == ';' || ('0' <= c <= '9')
    || c == 'a' || c == 'm' || c == 'p' || c == 'l' || c == 't' || c == 'g'
  }

  /** The five characters html.EscapeString rewrites. */
  predicate IsHtmlSpecial(c: char)
  {
    c == '&' || c == '\'' || c == '<' || c == '>' || c == '"'
  }

  /** The entity html.EscapeString writes for one character. */
  function EscapeChar(c: char): (r: string)
    ensures forall d :: d in r ==> d == c || IsEntityChar(d)
    ensures '<' !in r && '>' !in r && '\'' !in r && '"' !in r
    ensures !IsHtmlSpecial(c) ==> r == [c]
  {
    match c
    case '&' => "&amp;"
    case '\'' => "&#39;"
    case '<' => "&lt;"
    case '>' => "&gt;"
    case '"' => "&#34;"
    case _ => [c]
  }

  /** Escapes the five characters significant in HTML. */
  function EscapeHtml(s: string): (r: string)
    ensures '<' !in r && '>' !in r && '\'' !in r && '"' !in r
    ensures forall c :: c in r ==> c in s || IsEntityChar(c)
    ensures (forall k :: 0 <= k < |s| ==> !IsHtmlSpecial(s[k])) ==> r == s
    decreases |s|
  {
    if |s| == 0 then ""
    else
      var e, t := EscapeChar(s[0]), EscapeHtml(s[1..]);
      assert forall c :: c in e + t ==> c in e || c in t;
      assert (forall k :: 0 <= k < |s| ==> !IsHtmlSpecial(s[k])) ==> e + t == s by {
        if forall k :: 0 <= k < |s| ==> !IsHtmlSpecial(s[k]) {
          assert forall k :: 0 <= k < |s| - 1 ==> s[1..][k] == s[k + 1];
          assert s == [s[0]] + s[1..];
        }
      }
      e + t
  }

  /** Decodes exactly the five entities EscapeHtml produces. */
  function UnescapeHtml(s: string): string
    decreases |s|
  {
    if |s| >= 5 && s[..5] == "&amp;" then "&" + UnescapeHtml(s[5..])
    else if |s| >= 5 && s[..5] == "&#39;" then "'" + UnescapeHtml(s[5..])
    else if |s| >= 5 && s[..5] == "&#34;" then "\"" + UnescapeHtml(s[5..])
    else if |s| >= 4 && s[..4] == "&lt;" then "<" + UnescapeHtml(s[4..])
    else if |s| >= 4 && s[..4] == "&gt;" then ">" + UnescapeHtml(s[4..])
    else if |s| == 0 then ""
    else [s[0]] + UnescapeHtml(s[1..])
  }

  /** Unescaping consumes the entity of one escaped character. */
  lemma UnescapeEscapeChar(c: char, t: string)
    ensures UnescapeHtml(EscapeChar(c) + t) == [c] + UnescapeHtml(t)
  {
    var e := EscapeChar(c);
    var s := e + t;
    assert s[|e|..] == t;
    if c == '&' {
      assert s[..5] == e;
      assert UnescapeHtml(s) == "&" + UnescapeHtml(t);
      assert "&" == [c];
    } else if c == '\'' {
      assert s[..5] == e && s[1] == '#';
      assert UnescapeHtml(s) == "'" + UnescapeHtml(t);
      assert "'" == [c];
    } else if c == '"' {
      assert s[..5] == e && s[1] == '#' && s[3] == '4';
      assert UnescapeHtml(s) == "\"" + UnescapeHtml(t);
      assert "\"" == [c];
    } else if c == '<' {
      assert s[..4] == e && s[1] == 'l';
      assert |s| >= 5 ==> s[..5][1] == s[1];
      assert UnescapeHtml(s) == "<" + UnescapeHtml(t);
      assert "<" == [c];
    } else if c == '>' {
      assert s[..4] == e && s[1] == 'g';
      assert |s| >= 5 ==> s[..5][1] == s[1];
      assert s[..4][1] == s[1];
      assert UnescapeHtml(s) == ">" + UnescapeHtml(t);
      assert ">" == [c];
    } else {
      assert s[0] == c;
      assert |s| >= 5 ==> s[..5][0] == c;
      assert |s| >= 4 ==> s[..4][0] == c;
      assert s[1..] == t;
    }
  }

  /** Escaping loses no information: unescaping gives the input back. */
  lemma {:induction false} EscapeRoundTrip(s: string)
    ensures UnescapeHtml(EscapeHtml(s)) == s
    decreases |s|
  {
    if |s| > 0 {
      EscapeRoundTrip(s[1..]);
      UnescapeEscapeChar(s[0], EscapeHtml(s[1..]));
      assert s == [s[0]] + s[1..];
    }
  }

  /** No '&' of `s` is directly followed by '_'. Text of this kind holds no
      word that starts with "&_", such as the two line-break sentinels. */
  predicate AmpNotBeforeUnderscore(s: string)
  {
    forall k :: 0 <= k < |s| - 1 ==> s[k] == '&' ==> s[k + 1] != '_'
  }

  /** Every '&' the escape writes opens an entity, so a letter or '#'
      follows it, never '_'. */
  lemma {:induction false} EscapeOpensEntities(s: string)
    ensures AmpNotBeforeUnderscore(EscapeHtml(s))
    decreases |s|
  {
    if |s| > 0 {
      EscapeOpensEntities(s[1..]);
      EscapeCharOpens(s[0]);
      AmpJoin(EscapeChar(s[0]), EscapeHtml(s[1..]));
    }
  }

  lemma EscapeCharOpens(c: char)
    ensures var e := EscapeChar(c); |e| > 0 && e[|e| - 1] != '&' && AmpNotBeforeUnderscore(e)
  {
    if !IsHtmlSpecial(c) {
      assert EscapeChar(c) == [c];
    }
  }

  /** Two such strings joined, the first not ending in '&'. */
  lemma AmpJoin(a: string, b: string)
    requires AmpNotBeforeUnderscore(a) && AmpNotBeforeUnderscore(b)
    requires |a| > 0 ==> a[|a| - 1] != '&'
    ensures AmpNotBeforeUnderscore(a + b)
  {
    var s := a + b;
    forall k | 0 <= k < |s| - 1
      ensures s[k] == '&' ==> s[k + 1] != '_'
    {
      if k >= |a| {
        assert s[k] == b[k - |a|] && s[k + 1] == b[k + 1 - |a|];
      } else if k < |a| - 1 {
        assert s[k] == a[k] && s[k + 1] == a[k + 1];
      } else {
        assert s[k] == a[|a| - 1];
      }
    }
  }

  /** A slice keeps the property. */
  lemma AmpSlice(s: string, a: int, b: int)
    requires 0 <= a <= b <= |s| && AmpNotBeforeUnderscore(s)
    ensures AmpNotBeforeUnderscore(s[a..b])
  {
    var t := s[a..b];
    forall k | 0 <= k < |t| - 1
      ensures t[k] == '&' ==> t[k + 1] != '_'
    {
      assert t[k] == s[a + k] && t[k + 1] == s[a + k + 1];
    }
  }

  /** So does a space appended. */
  lemma AmpSpace(s: string)
    requires AmpNotBeforeUnderscore(s)
    ensures AmpNotBeforeUnderscore(s + " ")
  {
    var t := s + " ";
    forall k | 0 <= k < |t| - 1
      ensures t[k] == '&' ==> t[k + 1] != '_'
    {
      if k + 1 < |s| {
        assert t[k] == s[k] && t[k + 1] == s[k + 1];
      } else {
        assert t[k + 1] == ' ';
      }
    }
  }

  /** Such text holds no word that starts with "&_". */
  lemma {:induction false} AmpNoUnderscoreWord(s: string, w: string)
    requires AmpNotBeforeUnderscore(s) && |w| >= 2 && w[0] == '&' && w[1] == '_'
    ensures !Occurs(s, w)
    decreases |s|
  {
    if |w| <= |s| {
      assert s[..|w|][0] == s[0] && s[..|w|][1] == s[1];
      AmpSlice(s, 1, |s|);
      assert s[1..|s|] == s[1..];
      AmpNoUnderscoreWord(s[1..], w);
    }
  }

  // ---------------------------------------------------------------------
  // The regular expression \r\n? replaced by "\n"
  // ---------------------------------------------------------------------

  /** Rewrites each "\r\n" and each lone '\r' to '\n'. */
  function NormalizeNewlines(s: string): (r: string)
    ensures '\r' !in r
    ensures |r| <= |s|
    ensures '\r' !in s ==> r == s
    ensures forall c :: c != '\n' && c in r ==> c in s
    decreases |s|
  {
    if |s| == 0 then ""
    else if s[0] == '\r' && |s| >= 2 && s[1] == '\n' then "\n" + NormalizeNewlines(s[2..])
    else if s[0] == '\r' then "\n" + NormalizeNewlines(s[1..])
    else [s[0]] + NormalizeNewlines(s[1..])
  }

  /** The leftmost-first `\r\n?` rewrite is the same as replacing every
      "\r\n" and then every remaining '\r' by '\n'. */
  lemma {:induction false} NormalizeNewlinesIsReplace(s: string)
    ensures NormalizeNewlines(s) == ReplaceAll(ReplaceAll(s, "\r\n", "\n"), "\r", "\n")
    decreases |s|
  {
    if |s| > 0 {
      var t := ReplaceAll(s[1..], "\r\n", "\n");
      if s[0] == '\r' && |s| >= 2 && s[1] == '\n' {
        CrLfFront(s);
        NormalizeNewlinesIsReplace(s[2..]);
      } else if s[0] == '\r' {
        LoneCrFront(s);
        ReplaceAllHit(t, "\r", "\n");
        NormalizeNewlinesIsReplace(s[1..]);
      } else {
        OtherFront(s);
        NormalizeNewlinesIsReplace(s[1..]);
      }
    }
  }

  lemma CrLfFront(s: string)
    requires |s| >= 2 && s[0] == '\r' && s[1] == '\n'
    ensures ReplaceAll(ReplaceAll(s, "\r\n", "\n"), "\r", "\n")
      == "\n" + ReplaceAll(ReplaceAll(s[2..], "\r\n", "\n"), "\r", "\n")
  {
    assert s[..2] == "\r\n";
    ReplaceAllFree("\n", ReplaceAll(s[2..], "\r\n", "\n"), "\r", "\n");
  }

  lemma LoneCrFront(s: string)
    requires |s| >= 1 && s[0] == '\r' && (|s| == 1 || s[1] != '\n')
    ensures ReplaceAll(s, "\r\n", "\n") == "\r" + ReplaceAll(s[1..], "\r\n", "\n")
  {
    if |s| >= 2 {
      assert s[..2][1] == s[1];
      ReplaceAllSkip(s, "\r\n", "\n", ReplaceAll(s[1..], "\r\n", "\n"));
    } else {
      assert s[1..] == [];
    }
  }

  lemma OtherFront(s: string)
    requires |s| >= 1 && s[0] != '\r'
    ensures ReplaceAll(ReplaceAll(s, "\r\n", "\n"), "\r", "\n")
      == [s[0]] + ReplaceAll(ReplaceAll(s[1..], "\r\n", "\n"), "\r", "\n")
  {
    assert s == [s[0]] + s[1..];
    ReplaceAllFree([s[0]], s[1..], "\r\n", "\n");
    ReplaceAllFree([s[0]], ReplaceAll(s[1..], "\r\n", "\n"), "\r", "\n");
  }

  // ---------------------------------------------------------------------
  // The regular expressions (\s*?)SENTINEL(\s*) replaced by a constant
  // ---------------------------------------------------------------------

  /** The white-space class \s of Go's regular expressions: [\t\n\f\r ]. */
  predicate IsRegexSpace(c: char)
  {
    c == '\t' || c == '\n' || c == '\U{000C}' || c == '\r' || c == ' '
  }

  /** The length of the longest \s* prefix of `s`. */
  function SpaceRun(s: string): (n: nat)
    ensures n <= |s|
    ensures forall k :: 0 <= k < n ==> IsRegexSpace(s[k])
    ensures n == |s| || !IsRegexSpace(s[n])
    decreases |s|
  {
    if |s| > 0 && IsRegexSpace(s[0]) then 1 + SpaceRun(s[1..]) else 0
  }

  predicate StartsWith(s: string, w: string)
  {
    |w| <= |s| && s[..|w|] == w
  }

  /** One attempt of the regular expression at the start of `s`, and what
      the replacement writes for the prefix `s[..rest]` it consumes. The
      lazy \s*? can only stop where the sentinel begins, which is after the
      whole white-space run, since the sentinel starts with '&'. So either
      the run is followed by the sentinel, and run, sentinel and the run
      after it become `rep`; or the attempt fails at every position of the
      run, which is copied; or no run starts here and one character is
      copied. */
  function SentinelStep(s: string, sentinel: string, rep: string): (r: (string, nat))
    requires |sentinel| > 0 && |s| > 0
    ensures 0 < r.1 <= |s|
  {
    var k := SpaceRun(s);
    if StartsWith(s[k..], sentinel) then
      var after := k + |sentinel|;
      (rep, after + SpaceRun(s[after..]))
    else if k > 0 then (s[..k], k)
    else ([s[0]], 1)
  }

  /** The three outcomes of one attempt: a match written as `rep`, a
      white-space run copied, or one other character copied. */
  lemma SentinelStepCases(s: string, sentinel: string, rep: string)
    requires |sentinel| > 0 && |s| > 0
    ensures var r := SentinelStep(s, sentinel, rep);
            || (r.0 == rep && StartsWith(s[SpaceRun(s)..], sentinel))
            || (r.0 == s[..r.1] && forall k :: 0 <= k < r.1 ==> IsRegexSpace(s[k]))
            || (r.0 == [s[0]] && r.1 == 1 && !IsRegexSpace(s[0]) && !StartsWith(s, sentinel))
  {
    assert s[0..] == s;
  }

  /** Replaces every sentinel together with the white space around it by
      `rep`, as a leftmost-first regular-expression replace-all does,
      resuming after each match. */
  function ReplaceSentinel(s: string, sentinel: string, rep: string): string
    requires |sentinel| > 0
    decreases |s|
  {
    if |s| == 0 then ""
    else
      var step := SentinelStep(s, sentinel, rep);
      step.0 + ReplaceSentinel(s[step.1..], sentinel, rep)
  }

  /** A word that holds no regex white space and shares no character with
      `rep`. */
  predicate Solid(w: string, rep: string)
  {
    Disjoint(rep, w) && forall k :: 0 <= k < |w| ==> !IsRegexSpace(w[k])
  }

  lemma {:induction false} ReplaceSentinelPrefix(s: string, sentinel: string, rep: string, v: string)
    requires |sentinel| > 0 && |rep| > 0 && Solid(v, rep)
    requires StartsWith(ReplaceSentinel(s, sentinel, rep), v)
    ensures StartsWith(s, v)
    decreases |s|
  {
    if |v| > 0 {
      assert |s| > 0;
      var head, rest := SentinelStep(s, sentinel, rep).0, SentinelStep(s, sentinel, rep).1;
      SentinelStepCases(s, sentinel, rep);
      var q := ReplaceSentinel(s[rest..], sentinel, rep);
      assert head[0] == v[0] && rep[0] !in v && !IsRegexSpace(v[0]);
      assert head[0] != rep[0] && !IsRegexSpace(head[0]);
      assert head == [s[0]] && rest == 1;
      StartsWithCons(s[0], q, v);
      ReplaceSentinelPrefix(s[1..], sentinel, rep, v[1..]);
      ConsStartsWith(s[0], s[1..], v);
      assert s == [s[0]] + s[1..];
    }
  }

  lemma OccursConsTail(c: char, t: string, w: string)
    requires Occurs([c] + t, w) && !StartsWith([c] + t, w)
    ensures Occurs(t, w)
  {
    assert ([c] + t)[1..] == t;
  }

  lemma StartsWithCons(c: char, t: string, v: string)
    requires |v| > 0 && StartsWith([c] + t, v)
    ensures c == v[0] && StartsWith(t, v[1..])
  {
    assert ([c] + t)[..|v|][1..] == t[..|v| - 1];
  }

  lemma ConsStartsWith(c: char, t: string, v: string)
    requires |v| > 0 && c == v[0] && StartsWith(t, v[1..])
    ensures StartsWith([c] + t, v)
  {
    assert ([c] + t)[..|v|] == [c] + t[..|v| - 1];
  }

  /** Sentinel restoration creates no new occurrence of a solid word, and
      leaves no occurrence of the sentinel itself. */
  lemma {:induction false} ReplaceSentinelOccurs(s: string, sentinel: string, rep: string, w: string)
    requires |sentinel| > 0 && |rep| > 0 && |w| > 0 && Solid(w, rep) && Solid(sentinel, rep)
    ensures Occurs(ReplaceSentinel(s, sentinel, rep), w) ==> Occurs(s, w) && w != sentinel
    decreases |s|
  {
    if |s| > 0 {
      var rest := SentinelStep(s, sentinel, rep).1;
      ReplaceSentinelOccurs(s[rest..], sentinel, rep, w);
      OccursThroughStep(s, sentinel, rep, w);
    }
  }

  /** One step of restoration creates no occurrence of a solid word, given
      that the rest creates none. */
  lemma OccursThroughStep(s: string, sentinel: string, rep: string, w: string)
    requires |sentinel| > 0 && |rep| > 0 && |w| > 0 && Solid(w, rep) && Solid(sentinel, rep)
    requires |s| > 0
    requires var rest := SentinelStep(s, sentinel, rep).1;
      Occurs(ReplaceSentinel(s[rest..], sentinel, rep), w) ==> Occurs(s[rest..], w) && w != sentinel
    ensures Occurs(ReplaceSentinel(s, sentinel, rep), w) ==> Occurs(s, w) && w != sentinel
  {
    var head, rest := SentinelStep(s, sentinel, rep).0, SentinelStep(s, sentinel, rep).1;
    var q := ReplaceSentinel(s[rest..], sentinel, rep);
    assert ReplaceSentinel(s, sentinel, rep) == head + q;
    StepHeadSolid(s, sentinel, rep, w);
    if Occurs(head + q, w) {
      if w[0] !in head {
        OccursAfterPrefix(head, q, w);
        OccursInSuffix(s, rest, w);
      } else {
        OccursAtCopiedChar(s, sentinel, rep, w);
      }
    }
  }

  /** A step whose output holds the first character of a solid word copies
      one character that is not the start of the sentinel. */
  lemma StepHeadSolid(s: string, sentinel: string, rep: string, w: string)
    requires |sentinel| > 0 && |s| > 0 && |w| > 0 && Solid(w, rep)
    ensures var st := SentinelStep(s, sentinel, rep);
      w[0] in st.0 ==> st.0 == [s[0]] && st.1 == 1 && !StartsWith(s, sentinel)
  {
    SentinelStepCases(s, sentinel, rep);
    assert w[0] in w;
  }

  lemma OccursAtCopiedChar(s: string, sentinel: string, rep: string, w: string)
    requires |sentinel| > 0 && |rep| > 0 && |w| > 0 && Solid(w, rep)
    requires |s| > 0 && !StartsWith(s, sentinel)
    requires Occurs(ReplaceSentinel(s[1..], sentinel, rep), w) ==> Occurs(s[1..], w) && w != sentinel
    requires Occurs([s[0]] + ReplaceSentinel(s[1..], sentinel, rep), w)
    ensures Occurs(s, w) && w != sentinel
  {
    var q := ReplaceSentinel(s[1..], sentinel, rep);
    if StartsWith([s[0]] + q, w) {
      WordAtCopiedChar(s, sentinel, rep, w);
    } else {
      OccursConsTail(s[0], q, w);
      OccursInSuffix(s, 1, w);
    }
  }

  lemma WordAtCopiedChar(s: string, sentinel: string, rep: string, w: string)
    requires |sentinel| > 0 && |rep| > 0 && |w| > 0 && Solid(w, rep)
    requires |s| > 0 && StartsWith([s[0]] + ReplaceSentinel(s[1..], sentinel, rep), w)
    ensures StartsWith(s, w)
  {
    var q := ReplaceSentinel(s[1..], sentinel, rep);
    StartsWithCons(s[0], q, w);
    assert Solid(w[1..], rep);
    ReplaceSentinelPrefix(s[1..], sentinel, rep, w[1..]);
    ConsStartsWith(s[0], s[1..], w);
    assert s == [s[0]] + s[1..];
  }

  /** Without the sentinel's first character, restoration is the identity:
      white-space runs are copied as they stand. */
  lemma {:induction false} ReplaceSentinelAbsent(s: string, sentinel: string, rep: string)
    requires |sentinel| > 0 && sentinel[0] !in s
    ensures ReplaceSentinel(s, sentinel, rep) == s
    decreases |s|
  {
    if |s| > 0 {
      var n := StepCopies(s, sentinel, rep);
      ReplaceSentinelAbsent(s[n..], sentinel, rep);
      SplitAt(s, n);
    }
  }

  /** Without the sentinel's first character, one step copies what it
      consumes. */
  lemma StepCopies(s: string, sentinel: string, rep: string) returns (n: nat)
    requires |sentinel| > 0 && |s| > 0 && sentinel[0] !in s
    ensures 0 < n <= |s| && sentinel[0] !in s[n..]
    ensures ReplaceSentinel(s, sentinel, rep) == s[..n] + ReplaceSentinel(s[n..], sentinel, rep)
  {
    n := SentinelStep(s, sentinel, rep).1;
    var k := SpaceRun(s);
    assert !StartsWith(s[k..], sentinel) by {
      if k < |s| {
        assert s[k..][0] == s[k];
      }
    }
    assert s[..1] == [s[0]];
  }

  /** Text holding no occurrence of the sentinel comes through restoration
      unchanged. */
  lemma {:induction false} ReplaceSentinelUnmatched(s: string, sentinel: string, rep: string)
    requires |sentinel| > 0 && !Occurs(s, sentinel)
    ensures ReplaceSentinel(s, sentinel, rep) == s
    decreases |s|
  {
    if |s| > 0 {
      var n := StepCopiesUnmatched(s, sentinel, rep);
      if Occurs(s[n..], sentinel) {
        OccursInSuffix(s, n, sentinel);
      }
      ReplaceSentinelUnmatched(s[n..], sentinel, rep);
      SplitAt(s, n);
    }
  }

  lemma StepCopiesUnmatched(s: string, sentinel: string, rep: string) returns (n: nat)
    requires |sentinel| > 0 && |s| > 0 && !Occurs(s, sentinel)
    ensures 0 < n <= |s|
    ensures ReplaceSentinel(s, sentinel, rep) == s[..n] + ReplaceSentinel(s[n..], sentinel, rep)
  {
    n := SentinelStep(s, sentinel, rep).1;
    var k := SpaceRun(s);
    SentinelStepCases(s, sentinel, rep);
    if StartsWith(s[k..], sentinel) {
      OccursInSuffix(s, k, sentinel);
    }
    assert s[..1] == [s[0]];
  }

  /** A prefix in which no match of the sentinel starts, and which does not
      end in white space, is copied, and restoration resumes right after it. */
  lemma {:induction false} ReplaceSentinelUnmatchedPrefix(x: string, t: string, sentinel: string, rep: string)
    requires |sentinel| > 0
    requires forall k :: 0 <= k < |x| ==> !StartsWith((x + t)[k..], sentinel)
    requires x == [] || !IsRegexSpace(x[|x| - 1])
    ensures ReplaceSentinel(x + t, sentinel, rep) == x + ReplaceSentinel(t, sentinel, rep)
    decreases |x|
  {
    if |x| == 0 {
      assert x + t == t;
    } else {
      var n := StepInPrefix(x, t, sentinel, rep);
      RestOfPrefix(x, t, n, sentinel);
      ReplaceSentinelUnmatchedPrefix(x[n..], t, sentinel, rep);
      FreePrefixCombine(x, t, n, sentinel, rep);
    }
  }

  /** The same for a prefix without the sentinel's first character. */
  lemma ReplaceSentinelFreePrefix(x: string, t: string, sentinel: string, rep: string)
    requires |sentinel| > 0 && sentinel[0] !in x
    requires x == [] || !IsRegexSpace(x[|x| - 1])
    ensures ReplaceSentinel(x + t, sentinel, rep) == x + ReplaceSentinel(t, sentinel, rep)
  {
    NoMatchInFreePrefix(x, t, sentinel);
    ReplaceSentinelUnmatchedPrefix(x, t, sentinel, rep);
  }

  /** No match of the sentinel starts in a prefix that lacks its first
      character. */
  lemma NoMatchInFreePrefix(x: string, t: string, w: string)
    requires |w| > 0 && w[0] !in x
    ensures forall k :: 0 <= k < |x| ==> !StartsWith((x + t)[k..], w)
  {
    forall k | 0 <= k < |x|
      ensures !StartsWith((x + t)[k..], w)
    {
      assert (x + t)[k..][0] == x[k];
    }
  }

  /** One step at the front of such a prefix copies part of it. */
  lemma StepInPrefix(x: string, t: string, sentinel: string, rep: string) returns (n: nat)
    requires |sentinel| > 0 && |x| > 0 && !IsRegexSpace(x[|x| - 1])
    requires forall k :: 0 <= k < |x| ==> !StartsWith((x + t)[k..], sentinel)
    ensures 0 < n <= |x|
    ensures SentinelStep(x + t, sentinel, rep).0 == x[..n] && SentinelStep(x + t, sentinel, rep).1 == n
  {
    var s := x + t;
    var k := SpaceRun(s);
    assert s[|x| - 1] == x[|x| - 1];
    assert k < |x|;
    assert !StartsWith(s[k..], sentinel);
    n := StepCopiesFront(s, sentinel, rep);
    PrefixSlices(x, t, n);
  }

  /** A step that finds no sentinel after the leading run copies what it
      consumes: the run, or one character. */
  lemma StepCopiesFront(s: string, sentinel: string, rep: string) returns (n: nat)
    requires |sentinel| > 0 && |s| > 0 && !StartsWith(s[SpaceRun(s)..], sentinel)
    ensures n == SentinelStep(s, sentinel, rep).1 && SentinelStep(s, sentinel, rep).0 == s[..n]
    ensures n == (if SpaceRun(s) > 0 then SpaceRun(s) else 1)
  {
    n := SentinelStep(s, sentinel, rep).1;
    assert s[..1] == [s[0]];
  }

  lemma PrefixSlices(x: string, t: string, n: int)
    requires 0 <= n <= |x|
    ensures (x + t)[..n] == x[..n] && (x + t)[n..] == x[n..] + t
  {
  }

  lemma FreePrefixCombine(x: string, t: string, n: nat, sentinel: string, rep: string)
    requires |sentinel| > 0 && 0 < n <= |x|
    requires SentinelStep(x + t, sentinel, rep).0 == x[..n] && SentinelStep(x + t, sentinel, rep).1 == n
    requires ReplaceSentinel(x[n..] + t, sentinel, rep) == x[n..] + ReplaceSentinel(t, sentinel, rep)
    ensures ReplaceSentinel(x + t, sentinel, rep) == x + ReplaceSentinel(t, sentinel, rep)
  {
    PrefixSlices(x, t, n);
    StepThen(x + t, sentinel, rep, x[..n], n, x[n..] + t);
    PrefixRejoin(x, t, n, ReplaceSentinel(t, sentinel, rep));
  }

  /** Dropping the copied part keeps the prefix free of matches. */
  lemma RestOfPrefix(x: string, t: string, n: int, sentinel: string)
    requires 0 < n <= |x| && !IsRegexSpace(x[|x| - 1])
    requires forall k :: 0 <= k < |x| ==> !StartsWith((x + t)[k..], sentinel)
    ensures forall k :: 0 <= k < |x[n..]| ==> !StartsWith((x[n..] + t)[k..], sentinel)
    ensures x[n..] == [] || !IsRegexSpace(x[n..][|x[n..]| - 1])
  {
    forall k | 0 <= k < |x[n..]|
      ensures !StartsWith((x[n..] + t)[k..], sentinel)
    {
      assert (x[n..] + t)[k..] == (x + t)[n + k..];
    }
    if n < |x| {
      assert x[n..][|x[n..]| - 1] == x[|x| - 1];
    }
  }

  lemma PrefixRejoin(x: string, t: string, n: int, u: string)
    requires 0 <= n <= |x|
    ensures x[..n] + (x[n..] + u) == x + u
  {
    assert x == x[..n] + x[n..];
  }

  /** A run of white space followed by the first character that is not
      white space. */
  lemma {:induction false} SpaceRunOf(ws: string, t: string)
    requires forall k :: 0 <= k < |ws| ==> IsRegexSpace(ws[k])
    requires t == [] || !IsRegexSpace(t[0])
    ensures SpaceRun(ws + t) == |ws|
    decreases |ws|
  {
    if |ws| > 0 {
      assert (ws + t)[1..] == ws[1..] + t;
      SpaceRunOf(ws[1..], t);
    } else {
      assert ws + t == t;
    }
  }

  /** The sentinel together with the white space around it is written as
      `rep`, and restoration resumes at the next character that is not
      white space. */
  lemma SentinelMatch(ws: string, sentinel: string, ws': string, y: string, rep: string)
    requires |sentinel| > 0 && !IsRegexSpace(sentinel[0])
    requires forall k :: 0 <= k < |ws| ==> IsRegexSpace(ws[k])
    requires forall k :: 0 <= k < |ws'| ==> IsRegexSpace(ws'[k])
    requires y == [] || !IsRegexSpace(y[0])
    ensures ReplaceSentinel(ws + (sentinel + (ws' + y)), sentinel, rep) == rep + ReplaceSentinel(y, sentinel, rep)
  {
    var s := ws + (sentinel + (ws' + y));
    MatchStep(ws, sentinel, ws', y, rep);
    StepThen(s, sentinel, rep, rep, |ws| + |sentinel| + |ws'|, y);
  }

  /** The step at such a match consumes both runs and the sentinel. */
  lemma MatchStep(ws: string, sentinel: string, ws': string, y: string, rep: string)
    requires |sentinel| > 0 && !IsRegexSpace(sentinel[0])
    requires forall k :: 0 <= k < |ws| ==> IsRegexSpace(ws[k])
    requires forall k :: 0 <= k < |ws'| ==> IsRegexSpace(ws'[k])
    requires y == [] || !IsRegexSpace(y[0])
    ensures var s := ws + (sentinel + (ws' + y));
      && SentinelStep(s, sentinel, rep).0 == rep
      && SentinelStep(s, sentinel, rep).1 == |ws| + |sentinel| + |ws'|
      && s[|ws| + |sentinel| + |ws'|..] == y
  {
    var t1 := ws' + y;
    var t2 := sentinel + t1;
    var s := ws + t2;
    assert t2[0] == sentinel[0];
    SpaceRunOf(ws, t2);
    TakePrefix(sentinel, t1);
    SpaceRunOf(ws', y);
    MatchFacts(s, ws, t2, sentinel, t1, ws', y);
    StepAtMatch(s, sentinel, rep, |ws|, |ws'|);
  }

  lemma Regroup(a: string, b: string, c: string, d: string, e: string)
    ensures a + b + c + d + e == a + (b + (c + (d + e)))
  {
  }

  lemma MatchFacts(s: string, ws: string, t2: string, sentinel: string, t1: string, ws': string, y: string)
    requires s == ws + t2 && t2 == sentinel + t1 && t1 == ws' + y
    ensures s[|ws|..] == t2 && s[|ws| + |sentinel|..] == t1 && s[|ws| + |sentinel| + |ws'|..] == y
  {
    DropPrefix(ws, t2);
    DropPrefix(sentinel, t1);
    DropPrefix(ws', y);
    SliceSlice(s, |ws|, |sentinel|);
    SliceSlice(s, |ws| + |sentinel|, |ws'|);
  }

  lemma DropPrefix(a: string, b: string)
    ensures (a + b)[|a|..] == b
  {
  }

  lemma TakePrefix(a: string, b: string)
    ensures StartsWith(a + b, a)
  {
    assert (a + b)[..|a|] == a;
  }

  lemma SliceSlice(s: string, a: nat, b: nat)
    requires a + b <= |s|
    ensures s[a..][b..] == s[a + b..]
  {
  }

  /** One step where the sentinel follows the leading run. */
  lemma StepAtMatch(s: string, sentinel: string, rep: string, k: nat, m: nat)
    requires |sentinel| > 0 && |s| > 0 && SpaceRun(s) == k && k + |sentinel| <= |s|
    requires StartsWith(s[k..], sentinel) && SpaceRun(s[k + |sentinel|..]) == m
    ensures SentinelStep(s, sentinel, rep).0 == rep
    ensures SentinelStep(s, sentinel, rep).1 == k + |sentinel| + m
  {
  }

  /** Restoration writes what one step yields, then resumes after it. */
  lemma StepThen(s: string, sentinel: string, rep: string, head: string, n: nat, rest: string)
    requires |sentinel| > 0 && |s| > 0
    requires SentinelStep(s, sentinel, rep).0 == head && SentinelStep(s, sentinel, rep).1 == n
    requires s[n..] == rest
    ensures ReplaceSentinel(s, sentinel, rep) == head + ReplaceSentinel(rest, sentinel, rep)
  {
  }

  /** A sentinel between white-space runs comes back as `rep`: whatever
      stands before it, up to its last character that is not white space,
      is copied when no match of the sentinel starts in it, and the run
      before the sentinel, the sentinel and the run after it become `rep`. */
  lemma ReplaceSentinelRestores(x: string, ws: string, sentinel: string, ws': string, y: string, rep: string)
    requires |sentinel| > 0 && !IsRegexSpace(sentinel[0])
    requires forall k :: 0 <= k < |x| ==> !StartsWith((x + ws + sentinel + ws' + y)[k..], sentinel)
    requires x == [] || !IsRegexSpace(x[|x| - 1])
    requires forall k :: 0 <= k < |ws| ==> IsRegexSpace(ws[k])
    requires forall k :: 0 <= k < |ws'| ==> IsRegexSpace(ws'[k])
    requires y == [] || !IsRegexSpace(y[0])
    ensures ReplaceSentinel(x + ws + sentinel + ws' + y, sentinel, rep)
      == x + rep + ReplaceSentinel(y, sentinel, rep)
  {
    var tail := ws + (sentinel + (ws' + y));
    Regroup(x, ws, sentinel, ws', y);
    ReplaceSentinelUnmatchedPrefix(x, tail, sentinel, rep);
    SentinelMatch(ws, sentinel, ws', y, rep);
    Regroup3(x, rep, ReplaceSentinel(y, sentinel, rep));
  }

  /** The same for a prefix without the sentinel's first character. */
  lemma ReplaceSentinelRestoresFree(x: string, ws: string, sentinel: string, ws': string, y: string, rep: string)
    requires |sentinel| > 0 && !IsRegexSpace(sentinel[0])
    requires sentinel[0] !in x && (x == [] || !IsRegexSpace(x[|x| - 1]))
    requires forall k :: 0 <= k < |ws| ==> IsRegexSpace(ws[k])
    requires forall k :: 0 <= k < |ws'| ==> IsRegexSpace(ws'[k])
    requires y == [] || !IsRegexSpace(y[0])
    ensures ReplaceSentinel(x + ws + sentinel + ws' + y, sentinel, rep)
      == x + rep + ReplaceSentinel(y, sentinel, rep)
  {
    Regroup(x, ws, sentinel, ws', y);
    NoMatchInFreePrefix(x, ws + (sentinel + (ws' + y)), sentinel);
    ReplaceSentinelRestores(x, ws, sentinel, ws', y, rep);
  }

  lemma Regroup3(a: string, b: string, c: string)
    ensures a + (b + c) == a + b + c
  {
  }

  lemma SplitAt(s: string, n: int)
    requires 0 <= n <= |s|
    ensures s[..n] + s[n..] == s
  {
  }

  // ---------------------------------------------------------------------
  // A replace-all of words that hold no white space commutes with the
  // restoration of sentinels and with trimming
  // ---------------------------------------------------------------------

  /** No white space, as unicode.IsSpace defines it, in `w`. */
  predicate Spaceless(w: string)
  {
    forall k :: 0 <= k < |w| ==> !IsSpace(w[k])
  }

  /** A replace-all of `pat` by `rep` that cannot interfere with restoring
      `sentinel` as `srep`: neither `pat` nor `rep` holds regex white space
      or a character of the sentinel, and `pat` holds no character of
      `srep`. */
  predicate Independent(pat: string, rep: string, sentinel: string, srep: string)
  {
    |pat| > 0 && |rep| > 0 && |sentinel| > 0 && |srep| > 0
    && !IsRegexSpace(sentinel[0])
    && Solid(pat, srep) && Disjoint(pat, sentinel)
    && Disjoint(rep, sentinel) && (forall k :: 0 <= k < |rep| ==> !IsRegexSpace(rep[k]))
  }

  lemma IndependentFacts(pat: string, rep: string, sentinel: string, srep: string)
    requires Independent(pat, rep, sentinel, srep)
    ensures pat[0] !in sentinel && pat[0] !in srep
    ensures !IsRegexSpace(pat[0]) && !IsRegexSpace(pat[|pat| - 1])
    ensures sentinel[0] !in pat && sentinel[0] !in rep
    ensures !IsRegexSpace(rep[0]) && !IsRegexSpace(rep[|rep| - 1])
  {
    assert sentinel[0] in sentinel && pat[0] in pat;
    assert forall j :: 0 <= j < |pat| ==> pat[j] != sentinel[0];
    assert forall j :: 0 <= j < |rep| ==> rep[j] != sentinel[0];
    assert forall j :: 0 <= j < |srep| ==> srep[j] != pat[0];
  }

  /** Restoring the sentinel and replacing `pat` can be done in either
      order when they cannot interfere: no match of the sentinel's
      expression cuts through an occurrence of `pat`, and neither rewrite
      creates or destroys a match of the other. */
  lemma {:induction false} ReplaceSentinelCommutes(z: string, pat: string, rep: string, sentinel: string, srep: string)
    requires Independent(pat, rep, sentinel, srep)
    ensures ReplaceSentinel(ReplaceAll(z, pat, rep), sentinel, srep)
      == ReplaceAll(ReplaceSentinel(z, sentinel, srep), pat, rep)
    decreases |z|
  {
    if |z| > 0 {
      var k := SpaceRun(z);
      if StartsWith(z[k..], sentinel) {
        var ws, ws', y := MatchParts(z, sentinel, k);
        ReplaceSentinelCommutes(y, pat, rep, sentinel, srep);
        CommuteAtMatch(z, pat, rep, sentinel, srep, ws, ws', y);
      } else if k > 0 {
        ReplaceSentinelCommutes(z[k..], pat, rep, sentinel, srep);
        CommuteAtRun(z, pat, rep, sentinel, srep, k);
      } else if StartsWith(z, pat) {
        ReplaceSentinelCommutes(z[|pat|..], pat, rep, sentinel, srep);
        CommuteAtPattern(z, pat, rep, sentinel, srep);
      } else {
        assert z[0..] == z;
        ReplaceSentinelCommutes(z[1..], pat, rep, sentinel, srep);
        CommuteAtChar(z, pat, rep, sentinel, srep);
      }
    }
  }

  /** A match at the front is left alone by the replace-all. */
  lemma CommuteAtMatch(z: string, pat: string, rep: string, sentinel: string, srep: string, ws: string, ws': string, y: string)
    requires Independent(pat, rep, sentinel, srep)
    requires z == ws + (sentinel + (ws' + y))
    requires forall i :: 0 <= i < |ws| ==> IsRegexSpace(ws[i])
    requires forall i :: 0 <= i < |ws'| ==> IsRegexSpace(ws'[i])
    requires y == [] || !IsRegexSpace(y[0])
    requires ReplaceSentinel(ReplaceAll(y, pat, rep), sentinel, srep)
      == ReplaceAll(ReplaceSentinel(y, sentinel, srep), pat, rep)
    ensures ReplaceSentinel(ReplaceAll(z, pat, rep), sentinel, srep)
      == ReplaceAll(ReplaceSentinel(z, sentinel, srep), pat, rep)
  {
    IndependentFacts(pat, rep, sentinel, srep);
    var u := ReplaceAll(y, pat, rep);
    if |y| > 0 {
      ReplaceAllFront(y, pat, rep);
    }
    MatchReplaced(ws, sentinel, ws', y, pat, rep);
    SentinelMatch(ws, sentinel, ws', u, srep);
    SentinelMatch(ws, sentinel, ws', y, srep);
    ReplaceAllFree(srep, ReplaceSentinel(y, sentinel, srep), pat, rep);
  }

  /** The pieces of a match at the front: the run before the sentinel, the
      run after it, and what follows. */
  lemma MatchParts(z: string, sentinel: string, k: nat) returns (ws: string, ws': string, y: string)
    requires |sentinel| > 0 && k == SpaceRun(z) && StartsWith(z[k..], sentinel)
    ensures z == ws + (sentinel + (ws' + y))
    ensures forall i :: 0 <= i < |ws| ==> IsRegexSpace(ws[i])
    ensures forall i :: 0 <= i < |ws'| ==> IsRegexSpace(ws'[i])
    ensures y == [] || !IsRegexSpace(y[0])
  {
    var after;
    ws, after := MatchHead(z, sentinel, k);
    ws', y := RunSplit(after);
    Compose(z, ws, sentinel, after, ws', y);
  }

  /** The run before a sentinel at the front, and what follows the
      sentinel. */
  lemma MatchHead(z: string, sentinel: string, k: nat) returns (ws: string, after: string)
    requires |sentinel| > 0 && k == SpaceRun(z) && StartsWith(z[k..], sentinel)
    ensures z == ws + (sentinel + after) && after == z[k + |sentinel|..]
    ensures forall i :: 0 <= i < |ws| ==> IsRegexSpace(ws[i])
  {
    var rest;
    ws, rest := RunSplit(z);
    SplitAt(rest, |sentinel|);
    SliceSlice(z, k, |sentinel|);
    after := z[k + |sentinel|..];
  }

  lemma Compose(z: string, ws: string, sentinel: string, after: string, ws': string, y: string)
    requires z == ws + (sentinel + after) && after == ws' + y
    ensures z == ws + (sentinel + (ws' + y))
  {
  }

  /** A string is its leading regex white-space run followed by the rest,
      which does not start with white space. */
  lemma RunSplit(s: string) returns (ws: string, y: string)
    ensures ws == s[..SpaceRun(s)] && y == s[SpaceRun(s)..] && s == ws + y
    ensures forall i :: 0 <= i < |ws| ==> IsRegexSpace(ws[i])
    ensures y == [] || !IsRegexSpace(y[0])
  {
    var k := SpaceRun(s);
    ws, y := s[..k], s[k..];
    assert y == [] || y[0] == s[k];
    SplitAt(s, k);
  }

  /** The replace-all copies white space and the sentinel. */
  lemma MatchReplaced(ws: string, sentinel: string, ws': string, y: string, pat: string, rep: string)
    requires |pat| > 0 && !IsRegexSpace(pat[0]) && pat[0] !in sentinel
    requires forall i :: 0 <= i < |ws| ==> IsRegexSpace(ws[i])
    requires forall i :: 0 <= i < |ws'| ==> IsRegexSpace(ws'[i])
    ensures ReplaceAll(ws + (sentinel + (ws' + y)), pat, rep)
      == ws + (sentinel + (ws' + ReplaceAll(y, pat, rep)))
  {
    ReplaceAllFree(ws, sentinel + (ws' + y), pat, rep);
    ReplaceAllFree(sentinel, ws' + y, pat, rep);
    ReplaceAllFree(ws', y, pat, rep);
  }

  /** A white-space run at the front that no sentinel follows is copied by
      both rewrites. */
  lemma CommuteAtRun(z: string, pat: string, rep: string, sentinel: string, srep: string, k: nat)
    requires Independent(pat, rep, sentinel, srep)
    requires |z| > 0 && k == SpaceRun(z) && k > 0 && !StartsWith(z[k..], sentinel)
    requires ReplaceSentinel(ReplaceAll(z[k..], pat, rep), sentinel, srep)
      == ReplaceAll(ReplaceSentinel(z[k..], sentinel, srep), pat, rep)
    ensures ReplaceSentinel(ReplaceAll(z, pat, rep), sentinel, srep)
      == ReplaceAll(ReplaceSentinel(z, sentinel, srep), pat, rep)
  {
    IndependentFacts(pat, rep, sentinel, srep);
    var ws, y := RunSplit(z);
    var u := ReplaceAll(y, pat, rep);
    if |y| > 0 {
      ReplaceAllFront(y, pat, rep);
    }
    NoSentinelCreated(y, pat, rep, sentinel);
    RunKept(ws, y, sentinel, srep);
    ReplaceAllFree(ws, y, pat, rep);
    RunKept(ws, u, sentinel, srep);
    ReplaceAllFree(ws, ReplaceSentinel(y, sentinel, srep), pat, rep);
  }

  /** A white-space run followed by neither white space nor the sentinel
      is copied by the restoration. */
  lemma RunKept(ws: string, u: string, sentinel: string, srep: string)
    requires |sentinel| > 0 && |ws| > 0
    requires forall i :: 0 <= i < |ws| ==> IsRegexSpace(ws[i])
    requires u == [] || !IsRegexSpace(u[0])
    requires !StartsWith(u, sentinel)
    ensures ReplaceSentinel(ws + u, sentinel, srep) == ws + ReplaceSentinel(u, sentinel, srep)
  {
    var s := ws + u;
    SpaceRunOf(ws, u);
    DropPrefix(ws, u);
    var n := StepCopiesFront(s, sentinel, srep);
    assert s[..|ws|] == ws;
    StepThen(s, sentinel, srep, ws, |ws|, u);
  }

  /** An occurrence of `pat` at the front is skipped whole by the
      restoration and replaced by the replace-all. */
  lemma CommuteAtPattern(z: string, pat: string, rep: string, sentinel: string, srep: string)
    requires Independent(pat, rep, sentinel, srep)
    requires StartsWith(z, pat)
    requires ReplaceSentinel(ReplaceAll(z[|pat|..], pat, rep), sentinel, srep)
      == ReplaceAll(ReplaceSentinel(z[|pat|..], sentinel, srep), pat, rep)
    ensures ReplaceSentinel(ReplaceAll(z, pat, rep), sentinel, srep)
      == ReplaceAll(ReplaceSentinel(z, sentinel, srep), pat, rep)
  {
    IndependentFacts(pat, rep, sentinel, srep);
    var y := z[|pat|..];
    assert z == pat + y;
    ReplaceAllHit(y, pat, rep);
    ReplaceSentinelFreePrefix(rep, ReplaceAll(y, pat, rep), sentinel, srep);
    ReplaceSentinelFreePrefix(pat, y, sentinel, srep);
    ReplaceAllHit(ReplaceSentinel(y, sentinel, srep), pat, rep);
  }

  /** Any other character at the front is copied by both rewrites. */
  lemma CommuteAtChar(z: string, pat: string, rep: string, sentinel: string, srep: string)
    requires Independent(pat, rep, sentinel, srep)
    requires |z| > 0 && !IsRegexSpace(z[0]) && !StartsWith(z, sentinel) && !StartsWith(z, pat)
    requires ReplaceSentinel(ReplaceAll(z[1..], pat, rep), sentinel, srep)
      == ReplaceAll(ReplaceSentinel(z[1..], sentinel, srep), pat, rep)
    ensures ReplaceSentinel(ReplaceAll(z, pat, rep), sentinel, srep)
      == ReplaceAll(ReplaceSentinel(z, sentinel, srep), pat, rep)
  {
    var y := z[1..];
    var r := ReplaceAll(z, pat, rep);
    CharKept(z, sentinel, srep);
    ReplaceAllNotAtFront(z, pat, rep);
    NoSentinelCreated(z, pat, rep, sentinel);
    assert r[0] == z[0] && r[1..] == ReplaceAll(y, pat, rep);
    CharKept(r, sentinel, srep);
    var t := ReplaceSentinel(z, sentinel, srep);
    NoPatternCreated(z, sentinel, srep, pat);
    assert t[0] == z[0] && t[1..] == ReplaceSentinel(y, sentinel, srep);
    ReplaceAllNotAtFront(t, pat, rep);
  }

  /** A character that is neither white space nor the start of the
      sentinel is copied by the restoration. */
  lemma CharKept(s: string, sentinel: string, srep: string)
    requires |sentinel| > 0 && |s| > 0 && !IsRegexSpace(s[0]) && !StartsWith(s, sentinel)
    ensures ReplaceSentinel(s, sentinel, srep) == [s[0]] + ReplaceSentinel(s[1..], sentinel, srep)
  {
    assert s[0..] == s;
    var n := StepCopiesFront(s, sentinel, srep);
    assert s[..1] == [s[0]];
    StepThen(s, sentinel, srep, [s[0]], 1, s[1..]);
  }

  /** A replacement without the sentinel's characters makes no sentinel
      start where none did. */
  lemma NoSentinelCreated(s: string, pat: string, rep: string, sentinel: string)
    requires |pat| > 0 && |rep| > 0 && Disjoint(rep, sentinel) && !StartsWith(s, sentinel)
    ensures !StartsWith(ReplaceAll(s, pat, rep), sentinel)
  {
    if StartsWith(ReplaceAll(s, pat, rep), sentinel) {
      ReplaceAllPrefix(s, pat, rep, sentinel);
    }
  }

  /** Restoration makes no solid word start where none did. */
  lemma NoPatternCreated(s: string, sentinel: string, srep: string, pat: string)
    requires |sentinel| > 0 && |srep| > 0 && Solid(pat, srep) && !StartsWith(s, pat)
    ensures !StartsWith(ReplaceSentinel(s, sentinel, srep), pat)
  {
    if StartsWith(ReplaceSentinel(s, sentinel, srep), pat) {
      ReplaceSentinelPrefix(s, sentinel, srep, pat);
    }
  }

  /** Where `pat` does not start, the replace-all copies the first
      character. */
  lemma ReplaceAllNotAtFront(s: string, pat: string, rep: string)
    requires |pat| > 0 && |s| > 0 && !StartsWith(s, pat)
    ensures ReplaceAll(s, pat, rep) == [s[0]] + ReplaceAll(s[1..], pat, rep)
  {
    if |s| < |pat| {
      ReplaceAllShort(s[1..], pat, rep);
      assert s == [s[0]] + s[1..];
    }
  }

  /** The replace-all of a non-empty string starts with `rep` where `pat`
      starts, and with the same character otherwise. */
  lemma ReplaceAllFront(s: string, pat: string, rep: string)
    requires |pat| > 0 && |rep| > 0 && |s| > 0
    ensures |ReplaceAll(s, pat, rep)| > 0
    ensures ReplaceAll(s, pat, rep)[0] == if StartsWith(s, pat) then rep[0] else s[0]
  {
    if !StartsWith(s, pat) {
      ReplaceAllNotAtFront(s, pat, rep);
    }
  }

  /** The replace-all of a non-empty string ends with the same character,
      or with the last one of `rep`. */
  lemma {:induction false} ReplaceAllLast(s: string, pat: string, rep: string)
    requires |pat| > 0 && |rep| > 0 && |s| > 0
    ensures var r := ReplaceAll(s, pat, rep);
      |r| > 0 && (r[|r| - 1] == s[|s| - 1] || r[|r| - 1] == rep[|rep| - 1])
    decreases |s|
  {
    if |s| >= |pat| {
      if s[..|pat|] == pat {
        if |s| > |pat| {
          ReplaceAllLast(s[|pat|..], pat, rep);
        }
      } else if |s| > 1 {
        ReplaceAllLast(s[1..], pat, rep);
      }
    }
  }

  /** Trailing white space is copied by a replace-all of a pattern without
      white space. */
  lemma {:induction false} ReplaceAllSpaceSuffix(x: string, t: string, pat: string, rep: string)
    requires |pat| > 0 && Spaceless(pat)
    requires forall k :: 0 <= k < |t| ==> IsSpace(t[k])
    ensures ReplaceAll(x + t, pat, rep) == ReplaceAll(x, pat, rep) + t
    decreases |x|
  {
    if |x| == 0 {
      assert x + t == t;
      ReplaceAllNone(t, pat, rep);
    } else if StartsWith(x, pat) {
      var s := x + t;
      assert s[..|pat|] == pat && s[|pat|..] == x[|pat|..] + t;
      ReplaceAllSpaceSuffix(x[|pat|..], t, pat, rep);
      Regroup3(rep, ReplaceAll(x[|pat|..], pat, rep), t);
    } else {
      var s := x + t;
      NoPatternAcross(x, t, pat);
      ReplaceAllNotAtFront(s, pat, rep);
      assert s[0] == x[0] && s[1..] == x[1..] + t;
      ReplaceAllSpaceSuffix(x[1..], t, pat, rep);
      ReplaceAllNotAtFront(x, pat, rep);
      Regroup3([x[0]], ReplaceAll(x[1..], pat, rep), t);
    }
  }

  /** A pattern without white space that does not start `x` does not
      start `x` followed by white space. */
  lemma NoPatternAcross(x: string, t: string, pat: string)
    requires |x| > 0 && |pat| > 0 && Spaceless(pat) && !StartsWith(x, pat)
    requires forall k :: 0 <= k < |t| ==> IsSpace(t[k])
    ensures !StartsWith(x + t, pat)
  {
    var s := x + t;
    if |s| >= |pat| {
      if |x| >= |pat| {
        assert x[..|pat|] == s[..|pat|];
      } else {
        assert s[..|pat|][|x|] == t[0];
        assert !IsSpace(pat[|x|]);
      }
    }
  }

  /** Trimming commutes with a replace-all of a pattern by a replacement,
      both without white space. */
  lemma TrimSpaceCommutes(u: string, pat: string, rep: string)
    requires |pat| > 0 && |rep| > 0 && Spaceless(pat) && Spaceless(rep)
    ensures TrimSpace(ReplaceAll(u, pat, rep)) == ReplaceAll(TrimSpace(u), pat, rep)
  {
    var lead, r, trail := TrimParts(u);
    var m := ReplaceAll(r, pat, rep);
    ReplaceAround(lead, r, trail, pat, rep);
    ReplaceAllEnds(r, pat, rep);
    TrimSpaceOf(lead, m, trail);
  }

  /** A string is the white space trimming cuts off its front, the trimmed
      string, and the white space cut off its back. */
  lemma TrimParts(u: string) returns (lead: string, r: string, trail: string)
    ensures r == TrimSpace(u) && u == lead + (r + trail)
    ensures forall k :: 0 <= k < |lead| ==> IsSpace(lead[k])
    ensures forall k :: 0 <= k < |trail| ==> IsSpace(trail[k])
  {
    r := TrimSpace(u);
    var a, b :| TrimmedAt(u, r, a, b);
    lead, trail := u[..a], u[b..];
    assert u == lead + (r + trail);
  }

  /** White space around the text is copied by the replace-all. */
  lemma ReplaceAround(lead: string, r: string, trail: string, pat: string, rep: string)
    requires |pat| > 0 && Spaceless(pat)
    requires forall k :: 0 <= k < |lead| ==> IsSpace(lead[k])
    requires forall k :: 0 <= k < |trail| ==> IsSpace(trail[k])
    ensures ReplaceAll(lead + (r + trail), pat, rep) == lead + (ReplaceAll(r, pat, rep) + trail)
  {
    assert pat[0] !in lead;
    ReplaceAllFree(lead, r + trail, pat, rep);
    ReplaceAllSpaceSuffix(r, trail, pat, rep);
  }

  /** A replace-all by a replacement without white space keeps a string's
      ends free of white space. */
  lemma ReplaceAllEnds(r: string, pat: string, rep: string)
    requires |pat| > 0 && |rep| > 0 && Spaceless(rep)
    requires r == [] || (!IsSpace(r[0]) && !IsSpace(r[|r| - 1]))
    ensures var m := ReplaceAll(r, pat, rep); m == [] || (!IsSpace(m[0]) && !IsSpace(m[|m| - 1]))
  {
    if |r| > 0 {
      ReplaceAllFront(r, pat, rep);
      ReplaceAllLast(r, pat, rep);
    }
  }

  /** Trimming white space around a string whose ends are not white space
      gives that string. */
  lemma TrimSpaceOf(lead: string, m: string, trail: string)
    requires forall k :: 0 <= k < |lead| ==> IsSpace(lead[k])
    requires forall k :: 0 <= k < |trail| ==> IsSpace(trail[k])
    requires m == [] || (!IsSpace(m[0]) && !IsSpace(m[|m| - 1]))
    ensures TrimSpace(lead + (m + trail)) == m
  {
    var s := lead + (m + trail);
    var r := TrimSpace(s);
    var a, b :| TrimmedAt(s, r, a, b);
    TrimmedAround(lead, m, trail);
    TrimmedUnique(s, r, a, b, m, |lead|, |lead| + |m|);
  }

  lemma TrimmedAround(lead: string, m: string, trail: string)
    requires forall k :: 0 <= k < |lead| ==> IsSpace(lead[k])
    requires forall k :: 0 <= k < |trail| ==> IsSpace(trail[k])
    ensures TrimmedAt(lead + (m + trail), m, |lead|, |lead| + |m|)
  {
    var s := lead + (m + trail);
    assert s[|lead|..|lead| + |m|] == m;
    forall k | |lead| + |m| <= k < |s| ensures IsSpace(s[k]) {
      assert s[k] == trail[k - |lead| - |m|];
    }
  }

  /** There is only one way to trim white space so that neither end is
      white space. */
  lemma TrimmedUnique(s: string, r1: string, a1: int, b1: int, r2: string, a2: int, b2: int)
    requires TrimmedAt(s, r1, a1, b1) && (r1 == [] || (!IsSpace(r1[0]) && !IsSpace(r1[|r1| - 1])))
    requires TrimmedAt(s, r2, a2, b2) && (r2 == [] || (!IsSpace(r2[0]) && !IsSpace(r2[|r2| - 1])))
    ensures r1 == r2
  {
    assert r1 != [] ==> r1[0] == s[a1] && r1[|r1| - 1] == s[b1 - 1];
    assert r2 != [] ==> r2[0] == s[a2] && r2[|r2| - 1] == s[b2 - 1];
    assert r1 != [] <==> r2 != [];
    assert r1 != [] ==> a1 == a2 && b1 == b2;
  }
}
