/** The two documented calls of delta.go (lines 8-12), and further calls
    worked through the model: an empty previous or current revision, a
    revision compared with itself, and a word appended. Each goes through
    the tokens, the walk, the markup and the finishing pass. The string
    rewrites are evaluated piece by piece: the markup is cut at every '<' of
    a tag, and each pattern is matched, or shown to miss, at each cut. */
module Examples {
  import opened Text
  import opened Tokenizer
  import opened Alignment
  import opened Reconstruct
  import opened Render
  import opened Delta

  // ---------------------------------------------------------------------
  // Tokens
  // ---------------------------------------------------------------------

  /** Lower-case letters, the characters of the documented words. */
  predicate IsLetter(c: char)
  {
    'a' <= c <= 'z'
  }

  /** Two words of letters, one space apart, are the two tokens. */
  lemma PreprocessTwoWords(s: string, a: string, b: string)
    requires s == a + " " + b
    requires forall c :: c in a + b ==> IsLetter(c)
    requires |a| > 0 && |b| > 0
    ensures Preprocess(s) == [a, b]
  {
    TwoWordsChars(s, a, b);
    PreprocessPlain(s);
    TwoWords(a, b);
  }

  lemma TwoWordsChars(s: string, a: string, b: string)
    requires s == a + " " + b
    requires forall c :: c in a + b ==> IsLetter(c)
    requires |a| > 0 && |b| > 0
    ensures '\r' !in s && '\n' !in s
    ensures '&' !in s && '\'' !in s && '<' !in s && '>' !in s && '"' !in s
    ensures !IsSpace(s[0]) && !IsSpace(s[|s| - 1]) && ' ' !in a + b
  {
    assert s[0] == a[0] && s[|s| - 1] == b[|b| - 1];
    assert a[0] in a + b && b[|b| - 1] in a + b;
    assert forall c :: c in s ==> c == ' ' || c in a + b;
  }

  lemma TwoWords(a: string, b: string)
    requires ' ' !in a + b
    ensures Split(a + " " + b, ' ') == [a, b]
  {
    var ts := [a, b];
    assert ts[1..] == [b];
    assert Join(ts, ' ') == a + " " + b;
    assert ' ' !in a && ' ' !in b by {
      assert forall c :: c in a ==> c in a + b;
      assert forall c :: c in b ==> c in a + b;
    }
    SplitJoin(ts, ' ');
  }

  /** One word of letters is one token, and the empty text is
      one empty token. */
  lemma PreprocessOneWord(s: string)
    requires forall c :: c in s ==> IsLetter(c)
    ensures Preprocess(s) == [s]
  {
    assert s != [] ==> s[0] in s && s[|s| - 1] in s;
    PreprocessPlain(s);
    assert Join([s], ' ') == s;
    SplitJoin([s], ' ');
  }

  // ---------------------------------------------------------------------
  // Markup of a deletion followed by an insertion, cut at each '<'
  // ---------------------------------------------------------------------

  /** The markup of one deleted and one inserted word. */
  lemma TwoMarkup(b: string, c: string)
    ensures Markup([Deleted(b), Inserted(c)])
      == ("<del>" + b) + ("</del> " + (("<ins>" + c) + "</ins> "))
  {
    var segs := [Deleted(b), Inserted(c)];
    assert segs[..1] == [Deleted(b)];
    assert [Deleted(b)][..0] == [];
    assert Markup([Deleted(b)]) == ("<del>" + b) + "</del> ";
  }

  /** The markup of one unchanged, one deleted and one inserted word. */
  lemma ThreeMarkup(a: string, b: string, c: string)
    ensures Markup([Equal(a), Deleted(b), Inserted(c)])
      == (a + " ") + (("<del>" + b) + ("</del> " + (("<ins>" + c) + "</ins> ")))
  {
    var segs := [Equal(a), Deleted(b), Inserted(c)];
    assert segs[..2] == [Equal(a), Deleted(b)];
    assert segs[..2][..1] == [Equal(a)];
    assert [Equal(a)][..0] == [];
    var q0, q1, q2, q3, q4 := a + " ", "<del>" + b, "</del> ", "<ins>" + c, "</ins> ";
    assert Markup([Equal(a)]) == q0;
    assert Markup(segs[..2]) == q0 + (q1 + q2);
    assert Markup(segs) == (q0 + (q1 + q2)) + (q3 + q4);
  }

  /** Neither merge pattern occurs: the deletion is followed by an
      insertion, not by another deletion. */
  lemma TwoUnmerged(b: string, c: string)
    requires '<' !in b && '<' !in c
    ensures var m := ("<del>" + b) + ("</del> " + (("<ins>" + c) + "</ins> "));
      ReplaceAll(m, DelMerge, " ") == m && ReplaceAll(m, InsMerge, " ") == m
  {
    TwoMissesDel(b, c);
    TwoMissesIns(b, c);
  }

  lemma TwoMissesDel(b: string, c: string)
    requires '<' !in b && '<' !in c
    ensures var m := ("<del>" + b) + ("</del> " + (("<ins>" + c) + "</ins> "));
      ReplaceAll(m, DelMerge, " ") == m
  {
    var q1, q2, q3, q4 := "<del>" + b, "</del> ", "<ins>" + c, "</ins> ";
    assert q4 + "" == q4;
    ReplaceAllMiss(q4, "", DelMerge, " ", 2);
    ReplaceAllMiss(q3, q4, DelMerge, " ", 1);
    ReplaceAllMiss(q2, q3 + q4, DelMerge, " ", 8);
    ReplaceAllMiss(q1, q2 + (q3 + q4), DelMerge, " ", 1);
  }

  lemma TwoMissesIns(b: string, c: string)
    requires '<' !in b && '<' !in c
    ensures var m := ("<del>" + b) + ("</del> " + (("<ins>" + c) + "</ins> "));
      ReplaceAll(m, InsMerge, " ") == m
  {
    var q1, q2, q3, q4 := "<del>" + b, "</del> ", "<ins>" + c, "</ins> ";
    assert q4 + "" == q4;
    ReplaceAllMiss(q4, "", InsMerge, " ", 0);
    ReplaceAllMiss(q3, q4, InsMerge, " ", 1);
    ReplaceAllMiss(q2, q3 + q4, InsMerge, " ", 2);
    ReplaceAllMiss(q1, q2 + (q3 + q4), InsMerge, " ", 1);
  }

  /** Two neighbouring deletions become one: the tags between them are
      merged into a single space. */
  lemma MergedDeletions(b: string, c: string)
    requires '<' !in b && '<' !in c
    ensures Merge(Markup([Deleted(b), Deleted(c)])) == "<del>" + b + " " + c + "</del> "
  {
    TwoDeletionsMarkup(b, c);
    TwoDeletionsMerged(b, c);
    TwoDeletionsNoIns(b, c);
    assert ("<del>" + b) + (" " + (c + "</del> ")) == "<del>" + b + " " + c + "</del> ";
  }

  lemma TwoDeletionsMarkup(b: string, c: string)
    ensures Markup([Deleted(b), Deleted(c)]) == ("<del>" + b) + (DelMerge + (c + "</del> "))
  {
    var segs := [Deleted(b), Deleted(c)];
    assert segs[..1] == [Deleted(b)];
    assert [Deleted(b)][..0] == [];
    assert Markup([Deleted(b)]) == ("<del>" + b) + "</del> ";
    assert Markup(segs) == (("<del>" + b) + "</del> ") + (("<del>" + c) + "</del> ");
    TagsBetween("<del>" + b, c);
  }

  lemma TagsBetween(q: string, c: string)
    ensures (q + "</del> ") + (("<del>" + c) + "</del> ") == q + (DelMerge + (c + "</del> "))
  {
    assert "</del> " + "<del>" == DelMerge;
  }

  lemma TwoDeletionsMerged(b: string, c: string)
    requires '<' !in b && '<' !in c
    ensures ReplaceAll(("<del>" + b) + (DelMerge + (c + "</del> ")), DelMerge, " ")
      == ("<del>" + b) + (" " + (c + "</del> "))
  {
    var q1, q3 := "<del>" + b, c + "</del> ";
    ReplaceAllMiss(q1, DelMerge + q3, DelMerge, " ", 1);
    ReplaceAllHit(q3, DelMerge, " ");
    ReplaceAllFree(c, "</del> ", DelMerge, " ");
    ReplaceAllShort("</del> ", DelMerge, " ");
  }

  lemma TwoDeletionsNoIns(b: string, c: string)
    requires '<' !in b && '<' !in c
    ensures var r := ("<del>" + b) + (" " + (c + "</del> "));
      ReplaceAll(r, InsMerge, " ") == r
  {
    var q1, q3 := "<del>" + b, c + "</del> ";
    ReplaceAllMiss(q1, " " + q3, InsMerge, " ", 1);
    assert " " + q3 == (" " + c) + "</del> ";
    ReplaceAllFree(" " + c, "</del> ", InsMerge, " ");
    ReplaceAllShort("</del> ", InsMerge, " ");
  }

  /** An opening tag followed by a word and a closing tag. */
  lemma TagHit(c: string, close: string, pat: string, rep: string)
    requires |pat| > 1 && pat[0] !in c && |close| > 1 && close[0] == pat[0]
    requires pat[0] !in close[1..] && close[1] != pat[1]
    ensures ReplaceAll((pat + c) + close, pat, rep) == (rep + c) + close
  {
    CloseMissed(close, pat, rep);
    HitThenFree(pat, c, close, rep);
  }

  /** A closing tag is not the opening one it resembles. */
  lemma CloseMissed(close: string, pat: string, rep: string)
    requires |pat| > 1 && |close| > 1 && close[0] == pat[0]
    requires pat[0] !in close[1..] && close[1] != pat[1]
    ensures ReplaceAll(close, pat, rep) == close
  {
    assert close + "" == close;
    ReplaceAllMiss(close, "", pat, rep, 1);
  }

  lemma TwoInsOpen(b: string, c: string)
    requires '<' !in b && '<' !in c
    ensures ReplaceAll(("<del>" + b) + ("</del> " + (("<ins>" + c) + "</ins> ")), InsOpen, "+++")
      == ("<del>" + b) + ("</del> " + (("+++" + c) + "</ins> "))
  {
    var q1, q2, q3, q4 := "<del>" + b, "</del> ", "<ins>" + c, "</ins> ";
    TagHit(c, q4, InsOpen, "+++");
    ReplaceAllMiss(q2, q3 + q4, InsOpen, "+++", 1);
    ReplaceAllMiss(q1, q2 + (q3 + q4), InsOpen, "+++", 1);
  }

  lemma TwoInsClose(b: string, c: string)
    requires '<' !in b && '<' !in c
    ensures ReplaceAll(("<del>" + b) + ("</del> " + (("+++" + c) + "</ins> ")), InsClose, "+++")
      == ("<del>" + b) + ("</del> " + (("+++" + c) + "+++ "))
  {
    var q1, q2, r3, q4 := "<del>" + b, "</del> ", "+++" + c, "</ins> ";
    InsCloseTail(r3);
    ReplaceAllMiss(q2, r3 + q4, InsClose, "+++", 2);
    ReplaceAllMiss(q1, q2 + (r3 + q4), InsClose, "+++", 1);
  }

  lemma InsCloseTail(r: string)
    requires '<' !in r
    ensures ReplaceAll(r + "</ins> ", InsClose, "+++") == r + "+++ "
  {
    ReplaceAllNone(" ", InsClose, "+++");
    assert "</ins> " == InsClose + " ";
    ReplaceAllHit(" ", InsClose, "+++");
    assert "+++" + " " == "+++ ";
    ReplaceAllFree(r, "</ins> ", InsClose, "+++");
  }

  lemma TwoDelOpen(b: string, c: string)
    requires '<' !in b && '<' !in c
    ensures ReplaceAll(("<del>" + b) + ("</del> " + (("+++" + c) + "+++ ")), DelOpen, "---")
      == ("---" + b) + ("</del> " + (("+++" + c) + "+++ "))
  {
    var q2, t := "</del> ", ("+++" + c) + "+++ ";
    ReplaceAllNone(t, DelOpen, "---");
    ReplaceAllMiss(q2, t, DelOpen, "---", 1);
    HitThenFree(DelOpen, b, q2 + t, "---");
  }

  /** An opening tag followed by a word without its first character. */
  lemma HitThenFree(pat: string, b: string, u: string, rep: string)
    requires |pat| > 0 && pat[0] !in b
    ensures ReplaceAll((pat + b) + u, pat, rep) == (rep + b) + ReplaceAll(u, pat, rep)
  {
    assert (pat + b) + u == pat + (b + u);
    ReplaceAllHit(b + u, pat, rep);
    ReplaceAllFree(b, u, pat, rep);
    assert rep + (b + ReplaceAll(u, pat, rep)) == (rep + b) + ReplaceAll(u, pat, rep);
  }

  lemma TwoDelClose(b: string, c: string)
    requires '<' !in b && '<' !in c
    ensures ReplaceAll(("---" + b) + ("</del> " + (("+++" + c) + "+++ ")), DelClose, "---")
      == ("---" + b) + ("--- " + (("+++" + c) + "+++ "))
  {
    var r1, t := "---" + b, ("+++" + c) + "+++ ";
    DelCloseTail(t);
    ReplaceAllFree(r1, "</del> " + t, DelClose, "---");
  }

  lemma DelCloseTail(t: string)
    requires '<' !in t
    ensures ReplaceAll("</del> " + t, DelClose, "---") == "--- " + t
  {
    ReplaceAllNone(" " + t, DelClose, "---");
    assert "</del> " + t == DelClose + (" " + t);
    ReplaceAllHit(" " + t, DelClose, "---");
    assert "---" + (" " + t) == "--- " + t;
  }

  /** The plain-text rewrite turns each tag into its marker. */
  lemma TwoMarked(b: string, c: string)
    requires '<' !in b && '<' !in c
    ensures Plain(("<del>" + b) + ("</del> " + (("<ins>" + c) + "</ins> ")))
      == ("---" + b) + ("--- " + (("+++" + c) + "+++ "))
  {
    TwoInsOpen(b, c);
    TwoInsClose(b, c);
    TwoDelOpen(b, c);
    TwoDelClose(b, c);
  }

  /** Each rewrite copies an unchanged first word in front of the rest. */
  lemma ThreeUnmerged(a: string, b: string, c: string)
    requires '<' !in a && '<' !in b && '<' !in c
    ensures var m := (a + " ") + (("<del>" + b) + ("</del> " + (("<ins>" + c) + "</ins> ")));
      ReplaceAll(m, DelMerge, " ") == m && ReplaceAll(m, InsMerge, " ") == m
  {
    var t := ("<del>" + b) + ("</del> " + (("<ins>" + c) + "</ins> "));
    TwoUnmerged(b, c);
    ReplaceAllFree(a + " ", t, DelMerge, " ");
    ReplaceAllFree(a + " ", t, InsMerge, " ");
  }

  lemma ThreeMarked(a: string, b: string, c: string)
    requires '<' !in a && '<' !in b && '<' !in c
    ensures Plain((a + " ") + (("<del>" + b) + ("</del> " + (("<ins>" + c) + "</ins> "))))
      == (a + " ") + (("---" + b) + ("--- " + (("+++" + c) + "+++ ")))
  {
    var q0 := a + " ";
    var t0 := ("<del>" + b) + ("</del> " + (("<ins>" + c) + "</ins> "));
    var t1 := ("<del>" + b) + ("</del> " + (("+++" + c) + "</ins> "));
    var t2 := ("<del>" + b) + ("</del> " + (("+++" + c) + "+++ "));
    var t3 := ("---" + b) + ("</del> " + (("+++" + c) + "+++ "));
    TwoInsOpen(b, c);
    TwoInsClose(b, c);
    TwoDelOpen(b, c);
    TwoDelClose(b, c);
    ReplaceAllFree(q0, t0, InsOpen, "+++");
    ReplaceAllFree(q0, t1, InsClose, "+++");
    ReplaceAllFree(q0, t2, DelOpen, "---");
    ReplaceAllFree(q0, t3, DelClose, "---");
  }

  // ---------------------------------------------------------------------
  // Finishing
  // ---------------------------------------------------------------------

  /** Markup that nothing merges, without sentinels, is only trimmed. */
  lemma FinishUnmerged(m: string, x: string)
    requires ReplaceAll(m, DelMerge, " ") == m && ReplaceAll(m, InsMerge, " ") == m
    requires '&' !in m && TrimSpace(m) == x
    ensures Postprocess(m, false) == x
  {
    RestoreWithoutSentinel(m);
  }

  /** In plain-text mode such markup is marked, then trimmed. */
  lemma FinishUnmergedPlain(m: string, marked: string, x: string)
    requires ReplaceAll(m, DelMerge, " ") == m && ReplaceAll(m, InsMerge, " ") == m
    requires Plain(m) == marked && '&' !in marked && TrimSpace(marked) == x
    ensures Postprocess(m, true) == x
  {
    RestoreWithoutSentinel(marked);
  }

  lemma TwoTexts(b: string, c: string)
    requires '&' !in b && '&' !in c
    ensures '&' !in ("<del>" + b) + ("</del> " + (("<ins>" + c) + "</ins> "))
    ensures '&' !in ("---" + b) + ("--- " + (("+++" + c) + "+++ "))
    ensures TrimSpace(("<del>" + b) + ("</del> " + (("<ins>" + c) + "</ins> ")))
      == ("<del>" + b) + ("</del> " + (("<ins>" + c) + "</ins>"))
  {
    TagsFree();
    TwoTrim(b, c);
  }

  lemma TagsFree()
    ensures '&' !in "<del>" && '&' !in "</del> " && '&' !in "<ins>" && '&' !in "</ins> "
    ensures '&' !in "---" && '&' !in "--- " && '&' !in "+++" && '&' !in "+++ "
  {
  }

  lemma TwoTrim(b: string, c: string)
    ensures TrimSpace(("<del>" + b) + ("</del> " + (("<ins>" + c) + "</ins> ")))
      == ("<del>" + b) + ("</del> " + (("<ins>" + c) + "</ins>"))
  {
    var x := ("<del>" + b) + ("</del> " + (("<ins>" + c) + "</ins>"));
    assert x[0] == '<' && x[|x| - 1] == '>';
    assert (("<ins>" + c) + "</ins>") + " " == ("<ins>" + c) + "</ins> ";
    assert x + " " == ("<del>" + b) + ("</del> " + (("<ins>" + c) + "</ins> "));
    TrimTrailingSpace(x);
  }

  lemma ThreeTexts(a: string, b: string, c: string)
    requires '&' !in a && '&' !in b && '&' !in c
    requires |a| > 0 && !IsSpace(a[0])
    ensures '&' !in (a + " ") + (("<del>" + b) + ("</del> " + (("<ins>" + c) + "</ins> ")))
    ensures '&' !in (a + " ") + (("---" + b) + ("--- " + (("+++" + c) + "+++ ")))
    ensures TrimSpace((a + " ") + (("<del>" + b) + ("</del> " + (("<ins>" + c) + "</ins> "))))
      == (a + " ") + (("<del>" + b) + ("</del> " + (("<ins>" + c) + "</ins>")))
    ensures TrimSpace((a + " ") + (("---" + b) + ("--- " + (("+++" + c) + "+++ "))))
      == (a + " ") + (("---" + b) + ("--- " + (("+++" + c) + "+++")))
  {
    TagsFree();
    ThreeTrimHtml(a, b, c);
    ThreeTrimPlain(a, b, c);
  }

  lemma ThreeTrimHtml(a: string, b: string, c: string)
    requires |a| > 0 && !IsSpace(a[0])
    ensures TrimSpace((a + " ") + (("<del>" + b) + ("</del> " + (("<ins>" + c) + "</ins> "))))
      == (a + " ") + (("<del>" + b) + ("</del> " + (("<ins>" + c) + "</ins>")))
  {
    var x := (a + " ") + (("<del>" + b) + ("</del> " + (("<ins>" + c) + "</ins>")));
    assert x[0] == a[0] && x[|x| - 1] == '>';
    assert (("<ins>" + c) + "</ins>") + " " == ("<ins>" + c) + "</ins> ";
    assert x + " " == (a + " ") + (("<del>" + b) + ("</del> " + (("<ins>" + c) + "</ins> ")));
    TrimTrailingSpace(x);
  }

  lemma ThreeTrimPlain(a: string, b: string, c: string)
    requires |a| > 0 && !IsSpace(a[0])
    ensures TrimSpace((a + " ") + (("---" + b) + ("--- " + (("+++" + c) + "+++ "))))
      == (a + " ") + (("---" + b) + ("--- " + (("+++" + c) + "+++")))
  {
    var y := (a + " ") + (("---" + b) + ("--- " + (("+++" + c) + "+++")));
    assert y[0] == a[0] && y[|y| - 1] == '+';
    assert (("+++" + c) + "+++") + " " == ("+++" + c) + "+++ ";
    assert y + " " == (a + " ") + (("---" + b) + ("--- " + (("+++" + c) + "+++ ")));
    TrimTrailingSpace(y);
  }

  /** The HTML diff of one unchanged, one deleted and one inserted word. */
  lemma ThreeHtml(a: string, b: string, c: string)
    requires '<' !in a && '<' !in b && '<' !in c && '&' !in a && '&' !in b && '&' !in c
    requires |a| > 0 && !IsSpace(a[0])
    ensures Postprocess(Markup([Equal(a), Deleted(b), Inserted(c)]), false)
      == (a + " ") + (("<del>" + b) + ("</del> " + (("<ins>" + c) + "</ins>")))
  {
    var m := (a + " ") + (("<del>" + b) + ("</del> " + (("<ins>" + c) + "</ins> ")));
    ThreeMarkup(a, b, c);
    ThreeHtmlFinished(a, b, c);
    PostprocessSame(Markup([Equal(a), Deleted(b), Inserted(c)]), m, false);
  }

  lemma ThreeHtmlFinished(a: string, b: string, c: string)
    requires '<' !in a && '<' !in b && '<' !in c && '&' !in a && '&' !in b && '&' !in c
    requires |a| > 0 && !IsSpace(a[0])
    ensures Postprocess((a + " ") + (("<del>" + b) + ("</del> " + (("<ins>" + c) + "</ins> "))), false)
      == (a + " ") + (("<del>" + b) + ("</del> " + (("<ins>" + c) + "</ins>")))
  {
    var m := (a + " ") + (("<del>" + b) + ("</del> " + (("<ins>" + c) + "</ins> ")));
    ThreeUnmerged(a, b, c);
    ThreeTexts(a, b, c);
    FinishUnmerged(m, (a + " ") + (("<del>" + b) + ("</del> " + (("<ins>" + c) + "</ins>"))));
  }

  /** The plain-text diff of one unchanged, one deleted and one inserted word. */
  lemma ThreePlain(a: string, b: string, c: string)
    requires '<' !in a && '<' !in b && '<' !in c && '&' !in a && '&' !in b && '&' !in c
    requires |a| > 0 && !IsSpace(a[0])
    ensures Postprocess(Markup([Equal(a), Deleted(b), Inserted(c)]), true)
      == (a + " ") + (("---" + b) + ("--- " + (("+++" + c) + "+++")))
  {
    var m := (a + " ") + (("<del>" + b) + ("</del> " + (("<ins>" + c) + "</ins> ")));
    ThreeMarkup(a, b, c);
    ThreePlainFinished(a, b, c);
    PostprocessSame(Markup([Equal(a), Deleted(b), Inserted(c)]), m, true);
  }

  lemma ThreePlainFinished(a: string, b: string, c: string)
    requires '<' !in a && '<' !in b && '<' !in c && '&' !in a && '&' !in b && '&' !in c
    requires |a| > 0 && !IsSpace(a[0])
    ensures Postprocess((a + " ") + (("<del>" + b) + ("</del> " + (("<ins>" + c) + "</ins> "))), true)
      == (a + " ") + (("---" + b) + ("--- " + (("+++" + c) + "+++")))
  {
    var m := (a + " ") + (("<del>" + b) + ("</del> " + (("<ins>" + c) + "</ins> ")));
    var marked := (a + " ") + (("---" + b) + ("--- " + (("+++" + c) + "+++ ")));
    ThreeUnmerged(a, b, c);
    ThreeMarked(a, b, c);
    ThreeTexts(a, b, c);
    FinishUnmergedPlain(m, marked, (a + " ") + (("---" + b) + ("--- " + (("+++" + c) + "+++"))));
  }

  /** The HTML diff of one deleted word followed by one inserted word. */
  lemma TwoHtml(b: string, c: string)
    requires '<' !in b && '<' !in c && '&' !in b && '&' !in c
    ensures Postprocess(Markup([Deleted(b), Inserted(c)]), false)
      == ("<del>" + b) + ("</del> " + (("<ins>" + c) + "</ins>"))
  {
    var m := ("<del>" + b) + ("</del> " + (("<ins>" + c) + "</ins> "));
    TwoMarkup(b, c);
    TwoHtmlFinished(b, c);
    PostprocessSame(Markup([Deleted(b), Inserted(c)]), m, false);
  }

  lemma TwoHtmlFinished(b: string, c: string)
    requires '<' !in b && '<' !in c && '&' !in b && '&' !in c
    ensures Postprocess(("<del>" + b) + ("</del> " + (("<ins>" + c) + "</ins> ")), false)
      == ("<del>" + b) + ("</del> " + (("<ins>" + c) + "</ins>"))
  {
    var m := ("<del>" + b) + ("</del> " + (("<ins>" + c) + "</ins> "));
    TwoUnmerged(b, c);
    TwoTexts(b, c);
    FinishUnmerged(m, ("<del>" + b) + ("</del> " + (("<ins>" + c) + "</ins>")));
  }

  // ---------------------------------------------------------------------
  // The walks and the calls
  // ---------------------------------------------------------------------

  /** The walk of the documented example: the unchanged first word, then the
      deletion, then the insertion. At the last cell the two neighbours tie
      and the insertion wins, so it is emitted last. */
  lemma HelloWalk()
    ensures Backtrack(["hello", "world"], ["hello", "earth"], 1, 1)
      == [Equal("hello"), Deleted("world"), Inserted("earth")]
  {
    var p, q := ["hello", "world"], ["hello", "earth"];
    assert Score(p, q, 0, 0) == 2;
    assert Score(p, q, 1, 0) == 2;
    assert Score(p, q, 0, 1) == 2;
    assert Backtrack(p, q, 1, 0) == [Equal("hello"), Deleted("world")];
  }

  /** Against an empty previous revision the walk deletes its one empty
      token before inserting. */
  lemma EmptyWalk()
    ensures Backtrack([""], ["hello"], 0, 0) == [Deleted(""), Inserted("hello")]
  {
    var p, q := [""], ["hello"];
    assert Score(p, q, 0, -1) == 1 && Score(p, q, -1, 0) == 1;
    assert Backtrack(p, q, 0, -1) == [Deleted("")];
  }

  /** The diff, once the tokens of both revisions are known. */
  lemma DiffOfTokens(prev: string, curr: string, p: seq<string>, q: seq<string>, plaintext: bool)
    requires Preprocess(prev) == p && Preprocess(curr) == q
    ensures Diff(prev, curr, plaintext) == Finish(p, q, plaintext)
  {
  }

  lemma HelloTokens()
    ensures Preprocess("hello world") == ["hello", "world"]
    ensures Preprocess("hello earth") == ["hello", "earth"]
  {
    HelloWords();
    PreprocessTwoWords("hello world", "hello", "world");
    PreprocessTwoWords("hello earth", "hello", "earth");
  }

  lemma HelloWords()
    ensures "hello world" == "hello" + " " + "world"
    ensures "hello earth" == "hello" + " " + "earth"
    ensures forall c :: c in "hello" + "world" ==> IsLetter(c)
    ensures forall c :: c in "hello" + "earth" ==> IsLetter(c)
  {
  }

  /** delta.go's first documented call. */
  lemma HelloWorldHtml()
    ensures Diff("hello world", "hello earth", false) == "hello <del>world</del> <ins>earth</ins>"
  {
    HelloTokens();
    DiffOfTokens("hello world", "hello earth", ["hello", "world"], ["hello", "earth"], false);
    HelloFinish(false);
    HelloHtmlText();
  }

  /** delta.go's second documented call. */
  lemma HelloWorldPlain()
    ensures Diff("hello world", "hello earth", true) == "hello ---world--- +++earth+++"
  {
    HelloTokens();
    DiffOfTokens("hello world", "hello earth", ["hello", "world"], ["hello", "earth"], true);
    HelloFinish(true);
    HelloPlainText();
  }

  lemma HelloFinish(plaintext: bool)
    ensures Finish(["hello", "world"], ["hello", "earth"], plaintext)
      == Postprocess(Markup([Equal("hello"), Deleted("world"), Inserted("earth")]), plaintext)
  {
    HelloWalk();
    PostprocessSame(Markup(Backtrack(["hello", "world"], ["hello", "earth"], 1, 1)),
      Markup([Equal("hello"), Deleted("world"), Inserted("earth")]), plaintext);
  }

  lemma HelloHtmlText()
    ensures Postprocess(Markup([Equal("hello"), Deleted("world"), Inserted("earth")]), false)
      == "hello <del>world</del> <ins>earth</ins>"
  {
    HelloChars();
    ThreeHtml("hello", "world", "earth");
    HelloHtmlPieces();
  }

  lemma HelloPlainText()
    ensures Postprocess(Markup([Equal("hello"), Deleted("world"), Inserted("earth")]), true)
      == "hello ---world--- +++earth+++"
  {
    HelloChars();
    ThreePlain("hello", "world", "earth");
    HelloPlainPieces();
  }

  lemma HelloChars()
    ensures '<' !in "hello" && '<' !in "world" && '<' !in "earth"
    ensures '&' !in "hello" && '&' !in "world" && '&' !in "earth"
    ensures !IsSpace("hello"[0])
  {
  }

  lemma HelloHtmlPieces()
    ensures ("hello" + " ") + (("<del>" + "world") + ("</del> " + (("<ins>" + "earth") + "</ins>")))
      == "hello <del>world</del> <ins>earth</ins>"
  {
  }

  lemma HelloPlainPieces()
    ensures ("hello" + " ") + (("---" + "world") + ("--- " + (("+++" + "earth") + "+++")))
      == "hello ---world--- +++earth+++"
  {
  }

  /** An empty previous revision still has one (empty) token, which the
      walk deletes: the result carries an empty deletion before the
      insertion. */
  lemma EmptyToHello()
    ensures Diff("", "hello", false) == "<del></del> <ins>hello</ins>"
  {
    EmptyTokens();
    DiffOfTokens("", "hello", [""], ["hello"], false);
    EmptyFinish();
  }

  lemma EmptyTokens()
    ensures Preprocess("") == [""] && Preprocess("hello") == ["hello"]
  {
    assert forall c :: c in "hello" ==> IsLetter(c);
    PreprocessOneWord("");
    PreprocessOneWord("hello");
  }

  lemma EmptyFinish()
    ensures Finish([""], ["hello"], false) == "<del></del> <ins>hello</ins>"
  {
    EmptyWalk();
    PostprocessSame(Markup(Backtrack([""], ["hello"], 0, 0)), Markup([Deleted(""), Inserted("hello")]), false);
    EmptyChars();
    TwoHtml("", "hello");
    EmptyPieces();
  }

  lemma EmptyChars()
    ensures '<' !in "" && '<' !in "hello" && '&' !in "" && '&' !in "hello"
  {
  }

  lemma EmptyPieces()
    ensures ("<del>" + "") + ("</del> " + (("<ins>" + "hello") + "</ins>")) == "<del></del> <ins>hello</ins>"
  {
  }
  /** An empty current revision likewise: the one word is deleted and an
      empty insertion follows it. */
  lemma HelloToEmpty()
    ensures Diff("hello", "", false) == "<del>hello</del> <ins></ins>"
  {
    EmptyTokens();
    DiffOfTokens("hello", "", ["hello"], [""], false);
    HelloEmptyFinish();
  }

  lemma HelloEmptyWalk()
    ensures Backtrack(["hello"], [""], 0, 0) == [Deleted("hello"), Inserted("")]
  {
    var p, q := ["hello"], [""];
    assert Score(p, q, 0, -1) == 1 && Score(p, q, -1, 0) == 1;
    assert Backtrack(p, q, 0, -1) == [Deleted("hello")];
  }

  lemma HelloEmptyFinish()
    ensures Finish(["hello"], [""], false) == "<del>hello</del> <ins></ins>"
  {
    HelloEmptyWalk();
    PostprocessSame(Markup(Backtrack(["hello"], [""], 0, 0)), Markup([Deleted("hello"), Inserted("")]), false);
    EmptyChars();
    TwoHtml("hello", "");
    HelloEmptyPieces();
  }

  lemma HelloEmptyPieces()
    ensures ("<del>" + "hello") + ("</del> " + (("<ins>" + "") + "</ins>")) == "<del>hello</del> <ins></ins>"
  {
  }

  /** A revision compared with itself comes back unchanged. */
  lemma IdenticalWords()
    ensures Diff("a b c", "a b c", false) == "a b c"
  {
    AbcPlain();
    DiffIdenticalPlain("a b c", false);
  }

  lemma AbcPlain()
    ensures PlainText("a b c")
  {
  }

  /** Two lines compared with themselves keep their line break, in either
      mode. */
  lemma IdenticalLines(plaintext: bool)
    ensures Diff("a\nb", "a\nb", plaintext) == "a\nb"
  {
    LetterPlain();
    DiffIdenticalLines("a", "b", plaintext);
    LinesJoined();
  }

  lemma LinesJoined()
    ensures "a" + "\n" + "b" == "a\nb"
  {
  }

  lemma LetterPlain()
    ensures PlainText("a") && PlainText("b")
  {
  }
  /** A word appended to the current revision is one insertion after the
      unchanged words. */
  lemma AppendedWord()
    ensures Diff("a b", "a b c", false) == "a b <ins>c</ins>"
  {
    AbTokens();
    AbcTokens();
    DiffOfTokens("a b", "a b c", ["a", "b"], ["a", "b", "c"], false);
    AppendedFinish();
  }

  lemma AbTokens()
    ensures Preprocess("a b") == ["a", "b"]
  {
    assert "a b" == "a" + " " + "b";
    assert forall ch :: ch in "a" + "b" ==> IsLetter(ch);
    PreprocessTwoWords("a b", "a", "b");
  }

  lemma AbcTokens()
    ensures Preprocess("a b c") == ["a", "b", "c"]
  {
    AbcPlain();
    PreprocessPlain("a b c");
    AbcJoin();
    SplitJoin(["a", "b", "c"], ' ');
  }

  lemma AbcJoin()
    ensures Join(["a", "b", "c"], ' ') == "a b c"
    ensures forall k :: 0 <= k < 3 ==> ' ' !in ["a", "b", "c"][k]
  {
    assert ["a", "b", "c"][1..] == ["b", "c"];
    assert ["b", "c"][1..] == ["c"];
  }

  /** The walk keeps the two common words and inserts the third: at the
      last cell the neighbour on the left scores higher. */
  lemma AppendedWalk()
    ensures Backtrack(["a", "b"], ["a", "b", "c"], 1, 2)
      == [Equal("a"), Equal("b"), Inserted("c")]
  {
    var p, q := ["a", "b"], ["a", "b", "c"];
    assert Score(p, q, 0, 0) == 2;
    assert Score(p, q, 0, 1) == 2;
    assert Score(p, q, 1, 1) == 3;
    assert Score(p, q, 0, 2) == 2;
    assert Backtrack(p, q, 0, 0) == [Equal("a")];
    assert Backtrack(p, q, 1, 1) == [Equal("a"), Equal("b")];
  }

  lemma AppendedFinish()
    ensures Finish(["a", "b"], ["a", "b", "c"], false) == "a b <ins>c</ins>"
  {
    AppendedWalk();
    PostprocessSame(Markup(Backtrack(["a", "b"], ["a", "b", "c"], 1, 2)),
      Markup([Equal("a"), Equal("b"), Inserted("c")]), false);
    AppendedMarkup("a", "b", "c");
    AppendedChars();
    AppendedHtml(("a" + " ") + ("b" + " "), "c");
    AppendedPieces();
  }

  lemma AppendedMarkup(a: string, b: string, c: string)
    ensures Markup([Equal(a), Equal(b), Inserted(c)])
      == ((a + " ") + (b + " ")) + (("<ins>" + c) + "</ins> ")
  {
    var segs := [Equal(a), Equal(b), Inserted(c)];
    assert segs[..2] == [Equal(a), Equal(b)];
    assert segs[..2][..1] == [Equal(a)];
    assert [Equal(a)][..0] == [];
    assert Markup([Equal(a)]) == a + " ";
    assert Markup(segs[..2]) == (a + " ") + (b + " ");
  }

  lemma AppendedChars()
    ensures var x := ("a" + " ") + ("b" + " ");
      '<' !in x && '&' !in x && '<' !in "c" && '&' !in "c" && |x| > 0 && !IsSpace(x[0])
  {
  }

  lemma AppendedPieces()
    ensures ((("a" + " ") + ("b" + " ")) + (("<ins>" + "c") + "</ins>")) == "a b <ins>c</ins>"
  {
  }

  /** Untagged text followed by one insertion: nothing merges, and only the
      trailing space is trimmed. */
  lemma AppendedHtml(x: string, c: string)
    requires '<' !in x && '&' !in x && '<' !in c && '&' !in c
    requires |x| > 0 && !IsSpace(x[0])
    ensures Postprocess(x + (("<ins>" + c) + "</ins> "), false) == x + (("<ins>" + c) + "</ins>")
  {
    var t := ("<ins>" + c) + "</ins> ";
    InsertionUnmerged(c);
    ReplaceAllFree(x, t, DelMerge, " ");
    ReplaceAllFree(x, t, InsMerge, " ");
    AppendedTexts(x, c);
    FinishUnmerged(x + t, x + (("<ins>" + c) + "</ins>"));
  }

  lemma InsertionUnmerged(c: string)
    requires '<' !in c
    ensures var t := ("<ins>" + c) + "</ins> ";
      ReplaceAll(t, DelMerge, " ") == t && ReplaceAll(t, InsMerge, " ") == t
  {
    var q3, q4 := "<ins>" + c, "</ins> ";
    assert q4 + "" == q4;
    ReplaceAllMiss(q4, "", DelMerge, " ", 2);
    ReplaceAllMiss(q3, q4, DelMerge, " ", 1);
    ReplaceAllMiss(q4, "", InsMerge, " ", 0);
    ReplaceAllMiss(q3, q4, InsMerge, " ", 1);
  }

  lemma AppendedTexts(x: string, c: string)
    requires '&' !in x && '&' !in c && |x| > 0 && !IsSpace(x[0])
    ensures '&' !in x + (("<ins>" + c) + "</ins> ")
    ensures TrimSpace(x + (("<ins>" + c) + "</ins> ")) == x + (("<ins>" + c) + "</ins>")
  {
    TagsFree();
    var y := x + (("<ins>" + c) + "</ins>");
    assert y[0] == x[0] && y[|y| - 1] == '>';
    assert y + " " == x + (("<ins>" + c) + "</ins> ");
    TrimTrailingSpace(y);
  }

  // ---------------------------------------------------------------------
  // A line break after an escaped character
  // ---------------------------------------------------------------------

  /** "don't\nstop" reaches the restore as the escaped first line, the
      padded single sentinel and the second line. The '&' of the entity
      `&#39;` starts no sentinel, so the line break comes back. */
  lemma EscapedLineRestored()
    ensures ReplaceSentinel("don&#39;t" + SinglePadded + "stop", SingleSentinel, "\n") == "don&#39;t\nstop"
  {
    var x, y := "don&#39;t", "stop";
    EntityNoMatch(x, " " + SingleSentinel + " " + y);
    EscapedLineEnds(x, y);
    LineRestored(x, y);
  }

  lemma EscapedLineEnds(x: string, y: string)
    requires x == "don&#39;t" && y == "stop"
    ensures !IsRegexSpace(x[|x| - 1]) && !IsRegexSpace(y[0]) && '&' !in y
    ensures x + "\n" + y == "don&#39;t\nstop"
  {
  }

  /** A first line in which no sentinel starts, the padded single sentinel
      and a second line without '&' are restored to the two lines. */
  lemma LineRestored(x: string, y: string)
    requires |x| > 0 && |y| > 0 && !IsRegexSpace(x[|x| - 1]) && !IsRegexSpace(y[0]) && '&' !in y
    requires forall k :: 0 <= k < |x| ==> !StartsWith((x + (" " + SingleSentinel + " " + y))[k..], SingleSentinel)
    ensures ReplaceSentinel(x + SinglePadded + y, SingleSentinel, "\n") == x + "\n" + y
  {
    SingleFirst(x, y);
    LineRestoredBy(x, y, SingleSentinel, "\n");
  }

  lemma SingleFirst(x: string, y: string)
    ensures |SingleSentinel| > 0 && SingleSentinel[0] == '&'
    ensures x + SinglePadded + y == x + " " + SingleSentinel + " " + y
  {
  }

  lemma LineRestoredBy(x: string, y: string, sentinel: string, rep: string)
    requires |sentinel| > 0 && !IsRegexSpace(sentinel[0]) && sentinel[0] !in y
    requires x == [] || !IsRegexSpace(x[|x| - 1])
    requires y == [] || !IsRegexSpace(y[0])
    requires forall k :: 0 <= k < |x| ==> !StartsWith((x + (" " + sentinel + " " + y))[k..], sentinel)
    ensures ReplaceSentinel(x + " " + sentinel + " " + y, sentinel, rep) == x + rep + y
  {
    assert x + " " + sentinel + " " + y == x + (" " + sentinel + " " + y);
    ReplaceSentinelRestores(x, " ", sentinel, " ", y, rep);
    ReplaceSentinelAbsent(y, sentinel, rep);
  }

  /** The only '&' of the escaped line is followed by '#', where the
      sentinel has '_'. */
  lemma EntityNoMatch(x: string, t: string)
    requires x == "don&#39;t"
    ensures forall k :: 0 <= k < |x| ==> !StartsWith((x + t)[k..], SingleSentinel)
  {
    assert SingleSentinel[0] == '&' && SingleSentinel[1] == '_';
    forall k | 0 <= k < |x|
      ensures !StartsWith((x + t)[k..], SingleSentinel)
    {
      assert (x + t)[k..][0] == x[k];
      if k == 3 {
        assert (x + t)[k..][1] == x[4] == '#';
      }
    }
  }

  // ---------------------------------------------------------------------
  // Three line breaks in a row
  // ---------------------------------------------------------------------

  /** "a\n\n\nb" reaches the restore as "a", the padded double sentinel,
      the padded single sentinel and "b" with the trailing space of the
      markup. The double rewrite eats the spaces up to the single sentinel,
      and the single rewrite then eats the blank line it has just written
      (its lazy leading run takes all white space before the sentinel), so
      only one line break is left. */
  lemma BlankLineSwallowed()
    ensures Restore("a" + DoublePadded + SinglePadded + "b ") == "a\nb"
  {
    var t := SingleSentinel + " b ";
    TripleBreakShape();
    DoublePass(t);
    SinglePass();
    TrimTrailingB();
  }

  lemma TripleBreakShape()
    ensures "a" + DoublePadded + SinglePadded + "b " == "a" + " " + DoubleSentinel + "  " + (SingleSentinel + " b ")
    ensures "a" + "\n\n" + (SingleSentinel + " b ") == "a" + "\n\n" + SingleSentinel + " " + "b "
  {
  }

  /** The double rewrite turns its sentinel and both runs into a blank
      line, and leaves the single sentinel alone. */
  lemma DoublePass(t: string)
    requires t == SingleSentinel + " b "
    ensures ReplaceSentinel("a" + " " + DoubleSentinel + "  " + t, DoubleSentinel, "\n\n") == "a" + "\n\n" + t
  {
    assert ' ' in " " && IsRegexSpace(' ');
    assert t[0] == '&' && DoubleSentinel[0] == '&';
    ReplaceSentinelRestoresFree("a", " ", DoubleSentinel, "  ", t, "\n\n");
    NoDoubleAfterSingle(" b ");
    ReplaceSentinelUnmatched(t, DoubleSentinel, "\n\n");
  }

  /** The single rewrite turns the blank line, its sentinel and the space
      after it into one line break. */
  lemma SinglePass()
    ensures ReplaceSentinel("a" + "\n\n" + SingleSentinel + " " + "b ", SingleSentinel, "\n") == "a" + "\n" + "b "
  {
    assert SingleSentinel[0] == '&';
    ReplaceSentinelRestoresFree("a", "\n\n", SingleSentinel, " ", "b ", "\n");
    ReplaceSentinelAbsent("b ", SingleSentinel, "\n");
  }

  lemma TrimTrailingB()
    ensures TrimSpace("a" + "\n" + "b ") == "a\nb"
  {
    assert "a" + "\n" + "b " == "a\nb" + " ";
    TrimTrailingSpace("a\nb");
  }

  /** The whole pipeline: three line breaks compared with themselves come
      back as one. */
  lemma TripleBreakDiff(plaintext: bool)
    ensures Diff("a\n\n\nb", "a\n\n\nb", plaintext) == "a\nb"
  {
    var t := "a" + DoublePadded + SinglePadded + "b";
    var p := Preprocess("a\n\n\nb");
    TripleSentinelled();
    SelfMarkup(p, t);
    FinishMarkup(p, p, t + " ", plaintext);
    TripleUntagged(t);
    MergeUntagged(t + " ");
    PlainUntagged(t + " ");
    BlankLineSwallowed();
  }

  lemma TripleUntagged(t: string)
    requires t == "a" + DoublePadded + SinglePadded + "b"
    ensures '<' !in t + " " && t + " " == "a" + DoublePadded + SinglePadded + "b "
  {
  }

  /** The blank line becomes the padded double sentinel, and the line break
      after it the padded single one. */
  lemma TripleSentinelled()
    ensures Sentinelled("a\n\n\nb") == "a" + DoublePadded + SinglePadded + "b"
  {
    var s := "a\n\n\nb";
    TripleChars(s);
    EscapePlain(s);
    TrimSpaceUnchanged(s);
    TripleDoubled(s);
    DoublePaddedFree();
    LineBreakPadded("a" + DoublePadded, "b");
  }

  lemma TripleChars(s: string)
    requires s == "a\n\n\nb"
    ensures '\r' !in s && '&' !in s && '\'' !in s && '<' !in s && '>' !in s && '"' !in s
    ensures !IsSpace(s[0]) && !IsSpace(s[|s| - 1])
  {
  }

  lemma TripleDoubled(s: string)
    requires s == "a\n\n\nb"
    ensures ReplaceAll(s, "\n\n", DoublePadded) == "a" + DoublePadded + "\n" + "b"
  {
    assert s == "a" + "\n\n" + "\nb";
    assert ("a" + "\n\n" + "\nb")[0..][0] == 'a';
    ReplaceAllLeftmost("a", "\nb", "\n\n", DoublePadded);
    assert "\nb" == "\n" + "b";
    BreakThenOther("b", "\n\n", DoublePadded);
  }

  lemma DoublePaddedFree()
    ensures '\n' !in "a" + DoublePadded && '\n' !in "b"
  {
  }

  /** A word with an apostrophe compared with itself comes back escaped,
      in either mode. */
  lemma EscapedWord(plaintext: bool)
    ensures Diff("don't", "don't", plaintext) == "don&#39;t"
  {
    DontChars();
    DiffIdenticalEscaped("don't", plaintext);
    DontEscaped();
    TrimSpaceUnchanged("don&#39;t");
  }

  lemma DontChars()
    ensures '\r' !in "don't" && '\n' !in "don't"
    ensures !IsSpace("don&#39;t"[0]) && !IsSpace("don&#39;t"[8])
  {
  }

  lemma DontEscaped()
    ensures EscapeHtml("don't") == "don&#39;t"
  {
    assert "don't"[1..] == "on't" && "on't"[1..] == "n't" && "n't"[1..] == "'t" && "'t"[1..] == "t";
  }
}
