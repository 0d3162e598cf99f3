/** The entry point of delta.go (Calculate): both revisions are split into
    words, the alignment table is built over the two word sequences, the
    walk back through it prints the markup, and the markup is finished in
    HTML or plain-text form. */
module Delta {
  import opened Text
  import opened Tokenizer
  import opened Alignment
  import opened Reconstruct
  import opened Render

  /** The diff of two token sequences: the markup of the walk from their
      last cell, finished in the chosen mode. */
  function Finish(p: seq<string>, q: seq<string>, plaintext: bool): string
  {
    Postprocess(Markup(Backtrack(p, q, |p| - 1, |q| - 1)), plaintext)
  }

  /** The word-level diff of two revisions, as the composition of the
      four stages over their specifications. */
  function Diff(prev: string, curr: string, plaintext: bool): string
  {
    Finish(Preprocess(prev), Preprocess(curr), plaintext)
  }

  /** Runs the stages as `Calculate` in delta.go does: the table is built by the
      imperative Sequence, then walked by Print. The result is the diff; it
      is trimmed and free of sentinels, and a plain-text diff holds no tag. */
  method Calculate(prev: string, curr: string, plaintext: bool) returns (r: string)
    ensures r == Diff(prev, curr, plaintext)
    ensures r == [] || (!IsSpace(r[0]) && !IsSpace(r[|r| - 1]))
    ensures !Occurs(r, DoubleSentinel) && !Occurs(r, SingleSentinel)
    ensures plaintext ==> forall w :: IsTag(w) ==> !Occurs(r, w)
  {
    var p, q := Preprocess(prev), Preprocess(curr);
    var c := Sequence(p, q);
    FinishPrinted(c, p, q, plaintext);
    r := Postprocess(Print(c, p, q, |p| - 1, |q| - 1), plaintext);
  }

  /** Finishing the printed walk is finishing the markup of the segments. */
  lemma FinishPrinted(c: array2<int>, p: seq<string>, q: seq<string>, plaintext: bool)
    requires IsTable(c, p, q)
    ensures Postprocess(Print(c, p, q, |p| - 1, |q| - 1), plaintext) == Finish(p, q, plaintext)
  {
    PrintIsMarkup(c, p, q, |p| - 1, |q| - 1);
    PostprocessSame(Print(c, p, q, |p| - 1, |q| - 1), Markup(Backtrack(p, q, |p| - 1, |q| - 1)), plaintext);
  }

  lemma PostprocessSame(a: string, b: string, plaintext: bool)
    requires a == b
    ensures Postprocess(a, plaintext) == Postprocess(b, plaintext)
  {
  }

  /** The plain-text diff is the HTML diff with every tag rewritten as its
      marker. */
  lemma DiffPlainIsRewrite(prev: string, curr: string)
    ensures Diff(prev, curr, true) == Plain(Diff(prev, curr, false))
  {
    FinishPlainIsRewrite(Preprocess(prev), Preprocess(curr));
  }

  lemma FinishPlainIsRewrite(p: seq<string>, q: seq<string>)
    ensures Finish(p, q, true) == Plain(Finish(p, q, false))
  {
    var m := Markup(Backtrack(p, q, |p| - 1, |q| - 1));
    PostprocessPlainIsRewrite(m);
    FinishMarkup(p, q, m, true);
    FinishMarkup(p, q, m, false);
  }

  /** Comparing a revision with itself marks nothing: the output holds no
      angle bracket, so no tag, in either mode. */
  lemma DiffIdentical(s: string, plaintext: bool)
    ensures '<' !in Diff(s, s, plaintext) && '>' !in Diff(s, s, plaintext)
  {
    SelfFinish(Preprocess(s), plaintext);
  }

  lemma SelfFinish(p: seq<string>, plaintext: bool)
    requires forall k :: 0 <= k < |p| ==> '<' !in p[k] && '>' !in p[k]
    ensures '<' !in Finish(p, p, plaintext) && '>' !in Finish(p, p, plaintext)
  {
    IdenticalMarkup(p, '<');
    IdenticalMarkup(p, '>');
    NoAngleCreated(Markup(Backtrack(p, p, |p| - 1, |p| - 1)), plaintext, '<');
    NoAngleCreated(Markup(Backtrack(p, p, |p| - 1, |p| - 1)), plaintext, '>');
  }

  /** A revision of plain text compared with itself comes back exactly as
      it was, in either mode. */
  lemma DiffIdenticalPlain(s: string, plaintext: bool)
    requires PlainText(s)
    ensures Diff(s, s, plaintext) == s
  {
    SentinelledPlain(s);
    SelfFinishPlain(Preprocess(s), s, plaintext);
  }

  /** Any revision compared with itself: its words come back joined by
      spaces, and only the line-break restore and the trim act on them. */
  lemma DiffIdenticalRestored(s: string, plaintext: bool)
    ensures Diff(s, s, plaintext) == Restore(Sentinelled(s) + " ")
  {
    var p := Preprocess(s);
    var t := Sentinelled(s);
    SentinelledChars(s);
    SelfMarkup(p, t);
    FinishMarkup(p, p, t + " ", plaintext);
    assert '<' !in t + " ";
    MergeUntagged(t + " ");
    PlainUntagged(t + " ");
  }

  /** A single line compared with itself comes back HTML-escaped and
      trimmed, in either mode: the '&' of every entity the escape writes
      starts no sentinel, so the restore leaves the text alone. */
  lemma DiffIdenticalEscaped(s: string, plaintext: bool)
    requires '\r' !in s && '\n' !in s
    ensures Diff(s, s, plaintext) == TrimSpace(EscapeHtml(s))
  {
    var e := EscapeHtml(s);
    var t := TrimSpace(e);
    DiffIdenticalRestored(s, plaintext);
    SentinelledOneLine(s);
    EscapeOpensEntities(s);
    var a, b :| TrimmedAt(e, t, a, b);
    AmpSlice(e, a, b);
    RestoreEscaped(t);
  }

  /** Two lines of plain text compared with themselves come back as they
      were: the line break between them is carried through the diff as the
      single sentinel and restored, in either mode. */
  lemma DiffIdenticalLines(x: string, y: string, plaintext: bool)
    requires PlainText(x) && PlainText(y) && |x| > 0 && |y| > 0
    ensures Diff(x + "\n" + y, x + "\n" + y, plaintext) == x + "\n" + y
  {
    var s := x + "\n" + y;
    var p := Preprocess(s);
    SentinelledTwoLines(x, y);
    SelfMarkup(p, x + SinglePadded + y);
    FinishMarkup(p, p, x + SinglePadded + y + " ", plaintext);
    PostprocessTwoLines(x, y, plaintext);
  }

  lemma SelfFinishPlain(p: seq<string>, s: string, plaintext: bool)
    requires |p| >= 1 && Join(p, ' ') == s && '<' !in s && '&' !in s
    requires s == [] || (!IsSpace(s[0]) && !IsSpace(s[|s| - 1]))
    ensures Finish(p, p, plaintext) == s
  {
    SelfMarkup(p, s);
    FinishMarkup(p, p, s + " ", plaintext);
    PostprocessUntagged(s + " ", s, plaintext);
  }

  lemma FinishMarkup(p: seq<string>, q: seq<string>, m: string, plaintext: bool)
    requires Markup(Backtrack(p, q, |p| - 1, |q| - 1)) == m
    ensures Finish(p, q, plaintext) == Postprocess(m, plaintext)
  {
  }

  /** The walk over a revision and itself marks up its words as they are
      joined, plus one trailing space. */
  lemma SelfMarkup(p: seq<string>, s: string)
    requires |p| >= 1 && Join(p, ' ') == s
    ensures Markup(Backtrack(p, p, |p| - 1, |p| - 1)) == s + " "
  {
    BacktrackIdentity(p, |p| - 1);
    MarkupOfWords(Backtrack(p, p, |p| - 1, |p| - 1), p);
  }

  /** Postprocessing brings in no angle bracket. */
  lemma NoAngleCreated(markup: string, plaintext: bool, c: char)
    requires c == '<' || c == '>'
    requires c !in markup
    ensures c !in Postprocess(markup, plaintext)
  {
    OccursChar(markup, c);
    PostprocessCreatesNoWord(markup, plaintext, [c]);
    OccursChar(Postprocess(markup, plaintext), c);
  }
}
