/** The finishing pass of delta.go (postprocess): neighbouring tags of the
    same kind are merged, the tags become +++ and --- in plain-text mode,
    the line-break sentinels turn back into line breaks, and the result is
    trimmed. */
module Render {
  import opened Text
  import opened Tokenizer

  /** A deleted word followed by another deleted word. */
  const DelMerge: string := "</del> <del>"
  /** An inserted word followed by another inserted word. */
  const InsMerge: string := "</ins> <ins>"

  const InsOpen: string := "<ins>"
  const InsClose: string := "</ins>"
  const DelOpen: string := "<del>"
  const DelClose: string := "</del>"

  /** The four tags the markup is written with. */
  predicate IsTag(w: string)
  {
    w == InsOpen || w == InsClose || w == DelOpen || w == DelClose
  }

  /** Runs of deletions and of insertions become one tagged span each. */
  function Merge(s: string): string
  {
    ReplaceAll(ReplaceAll(s, DelMerge, " "), InsMerge, " ")
  }

  /** The tags written as the plain-text markers. */
  function Plain(s: string): string
  {
    var a := ReplaceAll(s, InsOpen, "+++");
    var b := ReplaceAll(a, InsClose, "+++");
    var c := ReplaceAll(b, DelOpen, "---");
    ReplaceAll(c, DelClose, "---")
  }

  /** The sentinels, with the white space around them, back to line breaks,
      blank lines first; then the ends are trimmed. */
  function Restore(s: string): string
  {
    var d := ReplaceSentinel(s, DoubleSentinel, "\n\n");
    TrimSpace(ReplaceSentinel(d, SingleSentinel, "\n"))
  }

  /** The finished diff: trimmed, free of sentinels, and in plain-text mode
      free of tags. */
  function Postprocess(input: string, plaintext: bool): (r: string)
    ensures r == [] || (!IsSpace(r[0]) && !IsSpace(r[|r| - 1]))
    ensures !Occurs(r, DoubleSentinel) && !Occurs(r, SingleSentinel)
    ensures plaintext ==> forall w :: IsTag(w) ==> !Occurs(r, w)
  {
    var merged := Merge(input);
    var marked := if plaintext then Plain(merged) else merged;
    RestoreRemovesSentinels(marked);
    PlainRestoredHasNoTag(merged);
    Restore(marked)
  }

  lemma PlainRestoredHasNoTag(s: string)
    ensures forall w :: IsTag(w) ==> !Occurs(Restore(Plain(s)), w)
  {
    forall w | IsTag(w) ensures !Occurs(Restore(Plain(s)), w) {
      PlainRemovesTag(s, w);
      RestoreCreatesNoWord(Plain(s), w);
    }
  }

  /** No sentinel survives restoration. */
  lemma RestoreRemovesSentinels(s: string)
    ensures !Occurs(Restore(s), DoubleSentinel) && !Occurs(Restore(s), SingleSentinel)
  {
    var d := ReplaceSentinel(s, DoubleSentinel, "\n\n");
    var e := ReplaceSentinel(d, SingleSentinel, "\n");
    SentinelsSolid();
    ReplaceSentinelOccurs(s, DoubleSentinel, "\n\n", DoubleSentinel);
    ReplaceSentinelOccurs(d, SingleSentinel, "\n", DoubleSentinel);
    ReplaceSentinelOccurs(d, SingleSentinel, "\n", SingleSentinel);
    TrimSpaceOccurs(e, DoubleSentinel);
    TrimSpaceOccurs(e, SingleSentinel);
  }

  lemma SentinelsSolid()
    ensures Solid(DoubleSentinel, "\n\n") && Solid(DoubleSentinel, "\n")
    ensures Solid(SingleSentinel, "\n")
  {
  }

  /** A word with no white space and no line break is never created by
      restoration. */
  lemma RestoreCreatesNoWord(s: string, w: string)
    requires |w| > 0 && forall k :: 0 <= k < |w| ==> !IsRegexSpace(w[k])
    ensures Occurs(Restore(s), w) ==> Occurs(s, w)
  {
    var d := ReplaceSentinel(s, DoubleSentinel, "\n\n");
    var e := ReplaceSentinel(d, SingleSentinel, "\n");
    SentinelsSolid();
    assert Solid(w, "\n\n") && Solid(w, "\n");
    ReplaceSentinelOccurs(s, DoubleSentinel, "\n\n", w);
    ReplaceSentinelOccurs(d, SingleSentinel, "\n", w);
    TrimSpaceOccurs(e, w);
  }

  /** Merging brings in only spaces, so it creates no word without one. */
  lemma MergeCreatesNoWord(s: string, w: string)
    requires |w| > 0 && ' ' !in w
    ensures Occurs(Merge(s), w) ==> Occurs(s, w)
  {
    var a := ReplaceAll(s, DelMerge, " ");
    ReplaceAllOccurs(s, DelMerge, " ", w);
    ReplaceAllOccurs(a, InsMerge, " ", w);
  }

  /** The plain-text rewrite brings in only '+' and '-'. */
  lemma PlainCreatesNoWord(s: string, w: string)
    requires |w| > 0 && '+' !in w && '-' !in w
    ensures Occurs(Plain(s), w) ==> Occurs(s, w)
  {
    var a := ReplaceAll(s, InsOpen, "+++");
    var b := ReplaceAll(a, InsClose, "+++");
    var c := ReplaceAll(b, DelOpen, "---");
    ReplaceAllOccurs(s, InsOpen, "+++", w);
    ReplaceAllOccurs(a, InsClose, "+++", w);
    ReplaceAllOccurs(b, DelOpen, "---", w);
    ReplaceAllOccurs(c, DelClose, "---", w);
  }

  /** The plain-text rewrite leaves no tag behind. */
  lemma PlainRemovesTag(s: string, w: string)
    requires IsTag(w)
    ensures !Occurs(Plain(s), w)
  {
    var a := ReplaceAll(s, InsOpen, "+++");
    var b := ReplaceAll(a, InsClose, "+++");
    var c := ReplaceAll(b, DelOpen, "---");
    ReplaceAllOccurs(s, InsOpen, "+++", w);
    ReplaceAllOccurs(a, InsClose, "+++", w);
    ReplaceAllOccurs(b, DelOpen, "---", w);
    ReplaceAllOccurs(c, DelClose, "---", w);
  }

  /** Postprocessing creates no word free of white space (and, in plain-text
      mode, of '+' and '-'): whatever it outputs, apart from the merged
      spaces, the markers and the restored line breaks, was in its input. */
  lemma PostprocessCreatesNoWord(input: string, plaintext: bool, w: string)
    requires |w| > 0 && forall k :: 0 <= k < |w| ==> !IsRegexSpace(w[k])
    requires plaintext ==> '+' !in w && '-' !in w
    ensures Occurs(Postprocess(input, plaintext), w) ==> Occurs(input, w)
  {
    var merged := Merge(input);
    var marked := if plaintext then Plain(merged) else merged;
    assert ' ' !in w;
    RestoreCreatesNoWord(marked, w);
    if plaintext {
      PlainCreatesNoWord(merged, w);
    }
    MergeCreatesNoWord(input, w);
  }

  /** Text without the sentinels' first character '&' is only trimmed. */
  lemma RestoreWithoutSentinel(s: string)
    requires '&' !in s
    ensures Restore(s) == TrimSpace(s)
  {
    ReplaceSentinelAbsent(s, DoubleSentinel, "\n\n");
    ReplaceSentinelAbsent(s, SingleSentinel, "\n");
  }

  /** Text in which no '&' comes before '_', such as escaped text, holds no
      sentinel, so with the trailing space of the markup it is restored to
      itself. */
  lemma RestoreEscaped(t: string)
    requires AmpNotBeforeUnderscore(t)
    requires t == [] || (!IsSpace(t[0]) && !IsSpace(t[|t| - 1]))
    ensures Restore(t + " ") == t
  {
    var m := t + " ";
    AmpSpace(t);
    SentinelsOpen();
    AmpNoUnderscoreWord(m, DoubleSentinel);
    AmpNoUnderscoreWord(m, SingleSentinel);
    ReplaceSentinelUnmatched(m, DoubleSentinel, "\n\n");
    ReplaceSentinelUnmatched(m, SingleSentinel, "\n");
    if |t| > 0 {
      TrimTrailingSpace(t);
    } else {
      assert m == " ";
    }
  }

  lemma SentinelsOpen()
    ensures |DoubleSentinel| >= 2 && DoubleSentinel[0] == '&' && DoubleSentinel[1] == '_'
    ensures |SingleSentinel| >= 2 && SingleSentinel[0] == '&' && SingleSentinel[1] == '_'
  {
  }

  /** Markup with no tag and no sentinel, such as the words of a revision
      compared with itself joined by spaces, is only trimmed. */
  lemma PostprocessUntagged(m: string, x: string, plaintext: bool)
    requires m == x + " " && '<' !in x && '&' !in x
    requires x == [] || (!IsSpace(x[0]) && !IsSpace(x[|x| - 1]))
    ensures Postprocess(m, plaintext) == x
  {
    assert '<' !in m && '&' !in m;
    MergeUntagged(m);
    PlainUntagged(m);
    RestoreWithoutSentinel(m);
    if |x| > 0 {
      TrimTrailingSpace(x);
    } else {
      assert m == " ";
    }
  }

  /** The plain-text diff is the HTML diff with its tags rewritten as
      markers: restoring line breaks and trimming touch neither tags nor
      markers. */
  lemma PostprocessPlainIsRewrite(input: string)
    ensures Postprocess(input, true) == Plain(Postprocess(input, false))
  {
    RestorePlain(Merge(input));
  }

  /** Restoration and the plain-text rewrite can be done in either order. */
  lemma RestorePlain(s: string)
    ensures Restore(Plain(s)) == Plain(Restore(s))
  {
    var a := ReplaceAll(s, InsOpen, "+++");
    var b := ReplaceAll(a, InsClose, "+++");
    var c := ReplaceAll(b, DelOpen, "---");
    InsIndependent();
    DelIndependent();
    RestoreCommutes(c, DelClose, "---");
    RestoreCommutes(b, DelOpen, "---");
    RestoreCommutes(a, InsClose, "+++");
    RestoreCommutes(s, InsOpen, "+++");
  }

  /** Restoration commutes with a replace-all that cannot interfere with
      either sentinel and brings in no white space. */
  lemma RestoreCommutes(s: string, pat: string, rep: string)
    requires Independent(pat, rep, DoubleSentinel, "\n\n") && Independent(pat, rep, SingleSentinel, "\n")
    requires Spaceless(pat) && Spaceless(rep)
    ensures Restore(ReplaceAll(s, pat, rep)) == ReplaceAll(Restore(s), pat, rep)
  {
    var d := ReplaceSentinel(s, DoubleSentinel, "\n\n");
    ReplaceSentinelCommutes(s, pat, rep, DoubleSentinel, "\n\n");
    ReplaceSentinelCommutes(d, pat, rep, SingleSentinel, "\n");
    TrimSpaceCommutes(ReplaceSentinel(d, SingleSentinel, "\n"), pat, rep);
  }

  lemma InsIndependent()
    ensures Independent(InsOpen, "+++", DoubleSentinel, "\n\n") && Independent(InsOpen, "+++", SingleSentinel, "\n")
    ensures Independent(InsClose, "+++", DoubleSentinel, "\n\n") && Independent(InsClose, "+++", SingleSentinel, "\n")
    ensures Spaceless(InsOpen) && Spaceless(InsClose) && Spaceless("+++")
  {
    MarkupChars();
    SentinelChars();
    ApartByClass(InsOpen, "+++", DoubleSentinel, "\n\n");
    ApartByClass(InsOpen, "+++", SingleSentinel, "\n");
    ApartByClass(InsClose, "+++", DoubleSentinel, "\n\n");
    ApartByClass(InsClose, "+++", SingleSentinel, "\n");
  }

  lemma DelIndependent()
    ensures Independent(DelOpen, "---", DoubleSentinel, "\n\n") && Independent(DelOpen, "---", SingleSentinel, "\n")
    ensures Independent(DelClose, "---", DoubleSentinel, "\n\n") && Independent(DelClose, "---", SingleSentinel, "\n")
    ensures Spaceless(DelOpen) && Spaceless(DelClose) && Spaceless("---")
  {
    MarkupChars();
    SentinelChars();
    ApartByClass(DelOpen, "---", DoubleSentinel, "\n\n");
    ApartByClass(DelOpen, "---", SingleSentinel, "\n");
    ApartByClass(DelClose, "---", DoubleSentinel, "\n\n");
    ApartByClass(DelClose, "---", SingleSentinel, "\n");
  }

  /** The characters tags and markers are written with. */
  predicate MarkupChar(c: char)
  {
    c == '<' || c == '>' || c == '/' || c == '+' || c == '-' || 'a' <= c <= 'z'
  }

  /** The characters sentinels are written with. */
  predicate SentinelChar(c: char)
  {
    c == '&' || c == '_' || c == ';' || 'A' <= c <= 'Z'
  }

  lemma MarkupChars()
    ensures forall k :: 0 <= k < |InsOpen| ==> MarkupChar(InsOpen[k])
    ensures forall k :: 0 <= k < |InsClose| ==> MarkupChar(InsClose[k])
    ensures forall k :: 0 <= k < |DelOpen| ==> MarkupChar(DelOpen[k])
    ensures forall k :: 0 <= k < |DelClose| ==> MarkupChar(DelClose[k])
    ensures forall k :: 0 <= k < |"+++"| ==> MarkupChar("+++"[k])
    ensures forall k :: 0 <= k < |"---"| ==> MarkupChar("---"[k])
  {
  }

  lemma SentinelChars()
    ensures forall k :: 0 <= k < |DoubleSentinel| ==> SentinelChar(DoubleSentinel[k])
    ensures forall k :: 0 <= k < |SingleSentinel| ==> SentinelChar(SingleSentinel[k])
  {
  }

  /** Words of markup characters cannot interfere with sentinels restored
      as line breaks. */
  lemma ApartByClass(pat: string, rep: string, sentinel: string, srep: string)
    requires |pat| > 0 && |rep| > 0 && |sentinel| > 0 && |srep| > 0
    requires forall k :: 0 <= k < |pat| ==> MarkupChar(pat[k])
    requires forall k :: 0 <= k < |rep| ==> MarkupChar(rep[k])
    requires forall k :: 0 <= k < |sentinel| ==> SentinelChar(sentinel[k])
    requires forall k :: 0 <= k < |srep| ==> srep[k] == '\n'
    ensures Independent(pat, rep, sentinel, srep) && Spaceless(pat) && Spaceless(rep)
  {
  }

  /** The markup of two lines compared with themselves: the sentinel
      between them, with its padding, comes back as the line break. */
  lemma PostprocessTwoLines(x: string, y: string, plaintext: bool)
    requires PlainText(x) && PlainText(y) && |x| > 0 && |y| > 0
    ensures Postprocess(x + SinglePadded + y + " ", plaintext) == x + "\n" + y
  {
    var m := x + SinglePadded + y + " ";
    TwoLinesUntagged(x, y);
    MergeUntagged(m);
    PlainUntagged(m);
    RestoreTwoLines(x, y);
  }

  lemma TwoLinesUntagged(x: string, y: string)
    requires '<' !in x && '<' !in y
    ensures '<' !in x + SinglePadded + y + " "
  {
  }

  lemma RestoreTwoLines(x: string, y: string)
    requires PlainText(x) && PlainText(y) && |x| > 0 && |y| > 0
    ensures Restore(x + SinglePadded + y + " ") == x + "\n" + y
  {
    var m := x + SinglePadded + y + " ";
    NoDoubleInTwoLines(x, y);
    ReplaceSentinelUnmatched(m, DoubleSentinel, "\n\n");
    SingleRestored(x, y);
    BreakTrimmed(x, y);
  }

  lemma NoDoubleInTwoLines(x: string, y: string)
    requires '&' !in x && '&' !in y
    ensures !Occurs(x + SinglePadded + y + " ", DoubleSentinel)
  {
    var t := " " + y + " ";
    assert '&' !in t;
    NoDoubleAfterSingle(t);
    assert x + SinglePadded + y + " " == (x + " ") + (SingleSentinel + t);
    assert '&' !in x + " ";
    if Occurs((x + " ") + (SingleSentinel + t), DoubleSentinel) {
      OccursAfterPrefix(x + " ", SingleSentinel + t, DoubleSentinel);
    }
  }

  /** The single sentinel is not the start of a double one. */
  lemma NoDoubleAfterSingle(t: string)
    requires '&' !in t
    ensures !Occurs(SingleSentinel + t, DoubleSentinel)
  {
    SingleFacts();
    AmpersandFree(SingleSentinel[1..], t);
    NoDoubleAt(SingleSentinel, t);
  }

  /** The single sentinel differs from the double one at its fourth place,
      and its only '&' is the first character. */
  lemma SingleFacts()
    ensures |SingleSentinel| > 3 && SingleSentinel[3] != DoubleSentinel[3]
    ensures '&' !in SingleSentinel[1..]
  {
    assert SingleSentinel[1..] == "__SINGLE__;";
  }

  /** A string whose only '&' is its first character, and which differs
      from the double sentinel at its fourth place, holds no double
      sentinel. */
  lemma NoDoubleAt(w: string, t: string)
    requires |w| > 3 && w[3] != DoubleSentinel[3] && '&' !in w[1..] + t
    ensures !Occurs(w + t, DoubleSentinel)
  {
    var u := w[1..] + t;
    NoOccurrenceWithoutFirst(u, DoubleSentinel);
    ConsSplit(w, t);
    assert ([w[0]] + u)[3] == w[3];
    if Occurs(w + t, DoubleSentinel) {
      OccursConsTail(w[0], u, DoubleSentinel);
    }
  }

  lemma AmpersandFree(a: string, t: string)
    requires '&' !in a && '&' !in t
    ensures '&' !in a + t
  {
  }

  lemma SingleRestored(x: string, y: string)
    requires PlainText(x) && PlainText(y) && |x| > 0 && |y| > 0
    ensures ReplaceSentinel(x + SinglePadded + y + " ", SingleSentinel, "\n") == x + "\n" + (y + " ")
  {
    assert x + SinglePadded + y + " " == x + " " + SingleSentinel + " " + (y + " ");
    assert !IsRegexSpace(x[|x| - 1]) && '&' !in y + " ";
    ReplaceSentinelRestoresFree(x, " ", SingleSentinel, " ", y + " ", "\n");
    ReplaceSentinelAbsent(y + " ", SingleSentinel, "\n");
  }

  lemma BreakTrimmed(x: string, y: string)
    requires PlainText(x) && PlainText(y) && |x| > 0 && |y| > 0
    ensures TrimSpace(x + "\n" + (y + " ")) == x + "\n" + y
  {
    var s := x + "\n" + y;
    assert s[0] == x[0] && s[|s| - 1] == y[|y| - 1];
    TrimTrailingSpace(s);
    assert s + " " == x + "\n" + (y + " ");
  }

  lemma MergeUntagged(s: string)
    requires '<' !in s
    ensures Merge(s) == s
  {
    ReplaceAllNone(s, DelMerge, " ");
    ReplaceAllNone(s, InsMerge, " ");
  }

  lemma PlainUntagged(s: string)
    requires '<' !in s
    ensures Plain(s) == s
  {
    ReplaceAllNone(s, InsOpen, "+++");
    ReplaceAllNone(s, InsClose, "+++");
    ReplaceAllNone(s, DelOpen, "---");
    ReplaceAllNone(s, DelClose, "---");
  }
}
