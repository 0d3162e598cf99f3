/** The tokenizer of delta.go (preprocess): one revision of text becomes the
    sequence of words the alignment compares, with line breaks turned into
    sentinel words. */
module Tokenizer {
  import opened Text

  /** Stands for a blank line ("\n\n"). */
  const DoubleSentinel: string := "&__DOUBLE__;"
  /** Stands for a single line break. */
  const SingleSentinel: string := "&__SINGLE__;"
  /** The sentinels padded by one space on each side, as substituted. */
  const DoublePadded: string := " " + DoubleSentinel + " "
  const SinglePadded: string := " " + SingleSentinel + " "

  /** The text just before it is split: line endings normalised, HTML
      escaped, trimmed, and line breaks replaced by space-padded sentinels. */
  function Sentinelled(input: string): string
  {
    var normal := NormalizeNewlines(input);
    var trimmed := TrimSpace(EscapeHtml(normal));
    var doubled := ReplaceAll(trimmed, "\n\n", DoublePadded);
    ReplaceAll(doubled, "\n", SinglePadded)
  }

  /** No line break, carriage return or angle bracket survives into the text
      that is split. */
  lemma SentinelledChars(input: string)
    ensures '\n' !in Sentinelled(input) && '\r' !in Sentinelled(input)
    ensures '<' !in Sentinelled(input) && '>' !in Sentinelled(input)
  {
    var escaped := EscapeHtml(NormalizeNewlines(input));
    var trimmed := TrimSpace(escaped);
    TrimSpaceChars(escaped, '\r');
    TrimSpaceChars(escaped, '<');
    TrimSpaceChars(escaped, '>');
    var doubled := ReplaceAll(trimmed, "\n\n", DoublePadded);
    ReplaceKeepsAbsent(trimmed, "\n\n", DoublePadded);
    ReplaceKeepsAbsent(doubled, "\n", SinglePadded);
    PaddedHasNoNewline();
    ReplaceAllOccurs(doubled, "\n", SinglePadded, "\n");
    OccursChar(ReplaceAll(doubled, "\n", SinglePadded), '\n');
  }

  lemma PaddedHasNoNewline()
    ensures Disjoint(SinglePadded, "\n")
  {
  }

  /** Substituting a padded sentinel brings in no carriage return or angle
      bracket. */
  lemma ReplaceKeepsAbsent(s: string, pat: string, rep: string)
    requires |pat| > 0 && (rep == DoublePadded || rep == SinglePadded)
    requires '\r' !in s && '<' !in s && '>' !in s
    ensures var r := ReplaceAll(s, pat, rep); '\r' !in r && '<' !in r && '>' !in r
  {
    ReplaceAllChars(s, pat, rep, '\r');
    ReplaceAllChars(s, pat, rep, '<');
    ReplaceAllChars(s, pat, rep, '>');
  }

  /** Splits the prepared text on single spaces. The result is never empty
      (the empty text gives one empty word), no word holds a space, line
      break, carriage return or angle bracket, and joining the words with
      spaces gives the prepared text back. */
  function Preprocess(input: string): (r: seq<string>)
    ensures |r| >= 1
    ensures forall k :: 0 <= k < |r| ==>
      ' ' !in r[k] && '\n' !in r[k] && '\r' !in r[k] && '<' !in r[k] && '>' !in r[k]
    ensures Join(r, ' ') == Sentinelled(input)
  {
    var s := Sentinelled(input);
    SentinelledChars(input);
    var r := Split(s, ' ');
    forall k, c | 0 <= k < |r| && c in r[k] ensures c in s {
      SplitChars(s, ' ', k, c);
    }
    r
  }

  /** Text with no line break, no character HTML escapes and no white
      space at its ends. */
  predicate PlainText(s: string)
  {
    '\r' !in s && '\n' !in s
    && '&' !in s && '\'' !in s && '<' !in s && '>' !in s && '"' !in s
    && (s == [] || (!IsSpace(s[0]) && !IsSpace(s[|s| - 1])))
  }

  /** Plain text reaches the split unchanged. */
  lemma SentinelledPlain(s: string)
    requires PlainText(s)
    ensures Sentinelled(s) == s
  {
    EscapePlain(s);
    TrimSpaceUnchanged(s);
    NoOccurrenceWithoutFirst(s, "\n\n");
    ReplaceAllAbsent(s, "\n\n", DoublePadded);
    NoOccurrenceWithoutFirst(s, "\n");
    ReplaceAllAbsent(s, "\n", SinglePadded);
  }

  /** A single line reaches the split only escaped and trimmed. */
  lemma SentinelledOneLine(s: string)
    requires '\r' !in s && '\n' !in s
    ensures Sentinelled(s) == TrimSpace(EscapeHtml(s))
  {
    var e := EscapeHtml(s);
    var t := TrimSpace(e);
    assert !IsEntityChar('\n');
    TrimSpaceChars(e, '\n');
    ReplaceAllNone(t, "\n\n", DoublePadded);
    ReplaceAllNone(t, "\n", SinglePadded);
  }

  lemma EscapePlain(s: string)
    requires '\r' !in s
    requires '&' !in s && '\'' !in s && '<' !in s && '>' !in s && '"' !in s
    ensures EscapeHtml(NormalizeNewlines(s)) == s
  {
    forall k | 0 <= k < |s| ensures !IsHtmlSpecial(s[k]) {
      assert s[k] in s;
    }
  }

  /** Two lines of plain text reach the split with the line break between
      them replaced by the padded single sentinel. */
  lemma SentinelledTwoLines(x: string, y: string)
    requires PlainText(x) && PlainText(y) && |x| > 0 && |y| > 0
    ensures Sentinelled(x + "\n" + y) == x + SinglePadded + y
  {
    TwoLinesEscaped(x, y);
    TrimSpaceUnchanged(x + "\n" + y);
    TwoLinesNoBlank(x, y);
    LineBreakPadded(x, y);
  }

  lemma TwoLinesEscaped(x: string, y: string)
    requires PlainText(x) && PlainText(y) && |x| > 0 && |y| > 0
    ensures EscapeHtml(NormalizeNewlines(x + "\n" + y)) == x + "\n" + y
    ensures var s := x + "\n" + y; !IsSpace(s[0]) && !IsSpace(s[|s| - 1])
  {
    var s := x + "\n" + y;
    forall k | 0 <= k < |s| ensures !IsHtmlSpecial(s[k]) {
      if k < |x| {
        assert s[k] == x[k] && x[k] in x;
      } else if k > |x| {
        assert s[k] == y[k - |x| - 1] && y[k - |x| - 1] in y;
      }
    }
    assert s[0] == x[0] && s[|s| - 1] == y[|y| - 1];
  }

  /** Two lines hold no blank line, so the first substitution misses. */
  lemma TwoLinesNoBlank(x: string, y: string)
    requires '\n' !in x && '\n' !in y && |y| > 0
    ensures ReplaceAll(x + "\n" + y, "\n\n", DoublePadded) == x + "\n" + y
  {
    ReplaceAllFree(x, "\n" + y, "\n\n", DoublePadded);
    BreakThenLine(y);
    Regroup3(x, "\n", y);
  }

  lemma BreakThenLine(y: string)
    requires '\n' !in y && |y| > 0
    ensures ReplaceAll("\n" + y, "\n\n", DoublePadded) == "\n" + y
  {
    BreakThenOther(y, "\n\n", DoublePadded);
  }

  lemma BreakThenOther(y: string, pat: string, rep: string)
    requires pat == "\n\n" && '\n' !in y && |y| > 0
    ensures ReplaceAll("\n" + y, pat, rep) == "\n" + y
  {
    assert y[0] in y;
    assert ("\n" + y)[1] == y[0];
    ReplaceAllMiss("\n", y, pat, rep, 1);
    ReplaceAllNone(y, pat, rep);
  }

  /** The one line break becomes the padded single sentinel. */
  lemma LineBreakPadded(x: string, y: string)
    requires '\n' !in x && '\n' !in y
    ensures ReplaceAll(x + "\n" + y, "\n", SinglePadded) == x + SinglePadded + y
  {
    Regroup3(x, "\n", y);
    ReplaceAllFree(x, "\n" + y, "\n", SinglePadded);
    BreakPadded(y);
    Regroup3(x, SinglePadded, y);
  }

  lemma BreakPadded(y: string)
    requires '\n' !in y
    ensures ReplaceAll("\n" + y, "\n", SinglePadded) == SinglePadded + y
  {
    ReplaceAllHit(y, "\n", SinglePadded);
    ReplaceAllNone(y, "\n", SinglePadded);
  }

  /** Plain text is split on its spaces, as it stands. */
  lemma PreprocessPlain(s: string)
    requires PlainText(s)
    ensures Preprocess(s) == Split(s, ' ')
  {
    SentinelledPlain(s);
  }

  /** Every character of a piece of a split comes from the split string. */
  lemma {:induction false} SplitChars(s: string, sep: char, k: nat, c: char)
    requires k < |Split(s, sep)| && c in Split(s, sep)[k]
    ensures c in s
    decreases |s|
  {
    if |s| > 0 {
      var rest := Split(s[1..], sep);
      if s[0] == sep {
        if k > 0 { SplitChars(s[1..], sep, k - 1, c); }
      } else if k == 0 {
        if c != s[0] {
          assert c in rest[0];
          SplitChars(s[1..], sep, 0, c);
        }
      } else {
        SplitChars(s[1..], sep, k, c);
      }
    }
  }
}
