/** The backtracking walk of delta.go (print): from the last cell of the
    alignment table back to (-1, -1), emitting unchanged, inserted and
    deleted words in document order, and the markup each word becomes. */
module Reconstruct {
  import opened Text
  import opened Alignment

  /** One word of the diff. */
  datatype Segment = Equal(token: string) | Inserted(token: string) | Deleted(token: string)

  /** The three guards of the walk, in the order `print` in delta.go tests them. */
  predicate MatchGuard(prev: seq<string>, curr: seq<string>, i: int, j: int)
    requires InRange(prev, curr, i, j)
  {
    i >= 0 && j >= 0 && prev[i] == curr[j]
  }

  /** Insertion wins ties: the comparison is `>=`. */
  predicate InsertGuard(prev: seq<string>, curr: seq<string>, i: int, j: int)
    requires InRange(prev, curr, i, j)
  {
    j >= 0 && (i == -1 || Score(prev, curr, i, j - 1) >= Score(prev, curr, i - 1, j))
  }

  predicate DeleteGuard(prev: seq<string>, curr: seq<string>, i: int, j: int)
    requires InRange(prev, curr, i, j)
  {
    i >= 0 && (j == -1 || Score(prev, curr, i, j - 1) < Score(prev, curr, i - 1, j))
  }

  /** The insert and delete guards are complementary: away from (-1, -1)
      exactly one of them holds, so some branch always fires there. */
  lemma GuardsComplementary(prev: seq<string>, curr: seq<string>, i: int, j: int)
    requires InRange(prev, curr, i, j) && (i, j) != (-1, -1)
    ensures InsertGuard(prev, curr, i, j) != DeleteGuard(prev, curr, i, j)
  {
  }

  /** The walk, read against the table's specification. Every step lowers
      i + j, so it ends at (-1, -1). */
  function Backtrack(prev: seq<string>, curr: seq<string>, i: int, j: int): seq<Segment>
    requires InRange(prev, curr, i, j)
    decreases i + j + 2
  {
    if MatchGuard(prev, curr, i, j) then
      Backtrack(prev, curr, i - 1, j - 1) + [Equal(prev[i])]
    else if InsertGuard(prev, curr, i, j) then
      Backtrack(prev, curr, i, j - 1) + [Inserted(curr[j])]
    else if DeleteGuard(prev, curr, i, j) then
      Backtrack(prev, curr, i - 1, j) + [Deleted(prev[i])]
    else
      []
  }

  /** The walk as `print` in delta.go performs it, reading the array built by
      Sequence (cell (i, j) at [i+1, j+1]) and building the markup string
      as it returns. */
  function Print(c: array2<int>, prev: seq<string>, curr: seq<string>, i: int, j: int): string
    reads c
    requires c.Length0 == |prev| + 2 && c.Length1 == |curr| + 2 && InRange(prev, curr, i, j)
    decreases i + j + 2
  {
    if i >= 0 && j >= 0 && prev[i] == curr[j] then
      Print(c, prev, curr, i - 1, j - 1) + (prev[i] + " ")
    else if j >= 0 && (i == -1 || c[i + 1, j] >= c[i, j + 1]) then
      Print(c, prev, curr, i, j - 1) + ("<ins>" + curr[j] + "</ins> ")
    else if i >= 0 && (j == -1 || c[i + 1, j] < c[i, j + 1]) then
      Print(c, prev, curr, i - 1, j) + ("<del>" + prev[i] + "</del> ")
    else
      ""
  }

  /** The two cells the walk compares hold the table's values. */
  lemma CellsAt(c: array2<int>, prev: seq<string>, curr: seq<string>, i: int, j: int)
    requires IsTable(c, prev, curr) && 0 <= i < |prev| && 0 <= j < |curr|
    ensures c[i + 1, j] == Score(prev, curr, i, j - 1) && c[i, j + 1] == Score(prev, curr, i - 1, j)
  {
    assert c[i + 1, j] == Cell(prev, curr, i + 1, j);
    assert c[i, j + 1] == Cell(prev, curr, i, j + 1);
  }

  /** One step of `print` agrees with one step of Backtrack. */
  lemma PrintStep(c: array2<int>, prev: seq<string>, curr: seq<string>, i: int, j: int) returns (i': int, j': int, s: Segment)
    requires IsTable(c, prev, curr) && InRange(prev, curr, i, j) && (i, j) != (-1, -1)
    ensures InRange(prev, curr, i', j') && i' + j' < i + j
    ensures Backtrack(prev, curr, i, j) == Backtrack(prev, curr, i', j') + [s]
    ensures Print(c, prev, curr, i, j) == Print(c, prev, curr, i', j') + SegmentMarkup(s)
  {
    if i >= 0 && j >= 0 {
      CellsAt(c, prev, curr, i, j);
    }
    GuardsComplementary(prev, curr, i, j);
    if MatchGuard(prev, curr, i, j) {
      i', j', s := i - 1, j - 1, Equal(prev[i]);
    } else if InsertGuard(prev, curr, i, j) {
      i', j', s := i, j - 1, Inserted(curr[j]);
    } else {
      i', j', s := i - 1, j, Deleted(prev[i]);
    }
  }

  /** Over a finished table, `print` prints exactly the markup of
      the segments Backtrack determines. */
  lemma {:induction false} PrintIsMarkup(c: array2<int>, prev: seq<string>, curr: seq<string>, i: int, j: int)
    requires IsTable(c, prev, curr) && InRange(prev, curr, i, j)
    ensures Print(c, prev, curr, i, j) == Markup(Backtrack(prev, curr, i, j))
    decreases i + j + 2
  {
    if (i, j) != (-1, -1) {
      var i', j', s := PrintStep(c, prev, curr, i, j);
      PrintIsMarkup(c, prev, curr, i', j');
      MarkupSnoc(Backtrack(prev, curr, i', j'), s);
    }
  }

  // ---------------------------------------------------------------------
  // Projections of a diff onto its two sides
  // ---------------------------------------------------------------------

  /** The words of the previous revision: unchanged and deleted ones. */
  function OldSide(segs: seq<Segment>): seq<string>
    decreases |segs|
  {
    if |segs| == 0 then []
    else
      var last := segs[|segs| - 1];
      OldSide(segs[..|segs| - 1]) + (if last.Inserted? then [] else [last.token])
  }

  /** The words of the current revision: unchanged and inserted ones. */
  function NewSide(segs: seq<Segment>): seq<string>
    decreases |segs|
  {
    if |segs| == 0 then []
    else
      var last := segs[|segs| - 1];
      NewSide(segs[..|segs| - 1]) + (if last.Deleted? then [] else [last.token])
  }

  /** The unchanged words. */
  function Common(segs: seq<Segment>): seq<string>
    decreases |segs|
  {
    if |segs| == 0 then []
    else
      var last := segs[|segs| - 1];
      Common(segs[..|segs| - 1]) + (if last.Equal? then [last.token] else [])
  }

  /** Every word is counted once on each side it belongs to. */
  lemma {:induction false} SideLengths(segs: seq<Segment>)
    ensures |OldSide(segs)| + |NewSide(segs)| == |segs| + |Common(segs)|
    decreases |segs|
  {
    if |segs| > 0 {
      SideLengths(segs[..|segs| - 1]);
    }
  }

  /** Appending one segment extends each projection by at most that word. */
  lemma Snoc(segs: seq<Segment>, s: Segment)
    ensures (segs + [s])[..|segs|] == segs
    ensures OldSide(segs + [s]) == OldSide(segs) + (if s.Inserted? then [] else [s.token])
    ensures NewSide(segs + [s]) == NewSide(segs) + (if s.Deleted? then [] else [s.token])
    ensures Common(segs + [s]) == Common(segs) + (if s.Equal? then [s.token] else [])
  {
    assert (segs + [s])[..|segs|] == segs;
  }

  /** The unchanged words are a subsequence of either side. */
  lemma {:induction false} CommonInSides(segs: seq<Segment>)
    ensures IsSubseq(Common(segs), OldSide(segs)) && IsSubseq(Common(segs), NewSide(segs))
    decreases |segs|
  {
    if |segs| > 0 {
      var init, last := segs[..|segs| - 1], segs[|segs| - 1];
      assert segs == init + [last];
      CommonInSides(init);
      Snoc(init, last);
      ExtendSides(Common(init), OldSide(init), NewSide(init), last);
    }
  }

  /** One more segment keeps the unchanged words a subsequence of either
      side. */
  lemma ExtendSides(c: seq<string>, o: seq<string>, n: seq<string>, last: Segment)
    requires IsSubseq(c, o) && IsSubseq(c, n)
    ensures var c' := c + (if last.Equal? then [last.token] else []);
      IsSubseq(c', o + (if last.Inserted? then [] else [last.token]))
      && IsSubseq(c', n + (if last.Deleted? then [] else [last.token]))
  {
    match last
    case Equal(t) =>
      assert (c + [t])[..|c|] == c && (o + [t])[..|o|] == o && (n + [t])[..|n|] == n;
    case Inserted(t) =>
      assert c + [] == c && o + [] == o;
      IsSubseqExtend(c, n, t);
    case Deleted(t) =>
      assert c + [] == c && n + [] == n;
      IsSubseqExtend(c, o, t);
  }

  // ---------------------------------------------------------------------
  // What the walk produces
  // ---------------------------------------------------------------------

  lemma PrefixSnoc(s: seq<string>, i: int)
    requires 0 <= i < |s|
    ensures s[..i + 1] == s[..i] + [s[i]]
  {
  }

  /** One step of the walk away from (-1, -1): the segment it appends and
      the cell of the shorter walk it appends to. */
  lemma BacktrackStep(prev: seq<string>, curr: seq<string>, i: int, j: int) returns (i': int, j': int, s: Segment)
    requires InRange(prev, curr, i, j) && (i, j) != (-1, -1)
    ensures InRange(prev, curr, i', j')
    ensures Backtrack(prev, curr, i, j) == Backtrack(prev, curr, i', j') + [s]
    ensures || (i' == i - 1 && j' == j - 1 && s == Equal(prev[i]) && prev[i] == curr[j])
            || (i' == i && j' == j - 1 && s == Inserted(curr[j]))
            || (i' == i - 1 && j' == j && s == Deleted(prev[i]))
    ensures Score(prev, curr, i, j) == Score(prev, curr, i', j') + (if s.Equal? then 1 else 0)
  {
    GuardsComplementary(prev, curr, i, j);
    if MatchGuard(prev, curr, i, j) {
      i', j', s := i - 1, j - 1, Equal(prev[i]);
    } else if InsertGuard(prev, curr, i, j) {
      i', j', s := i, j - 1, Inserted(curr[j]);
    } else {
      i', j', s := i - 1, j, Deleted(prev[i]);
    }
  }

  /** Projection: dropping the inserted words gives back prev[..i+1]. */
  lemma {:induction false} BacktrackOldSide(prev: seq<string>, curr: seq<string>, i: int, j: int)
    requires InRange(prev, curr, i, j)
    ensures OldSide(Backtrack(prev, curr, i, j)) == prev[..i + 1]
    decreases i + j + 2
  {
    if (i, j) != (-1, -1) {
      var i', j', s := BacktrackStep(prev, curr, i, j);
      BacktrackOldSide(prev, curr, i', j');
      Snoc(Backtrack(prev, curr, i', j'), s);
      if i' < i {
        PrefixSnoc(prev, i);
      }
    }
  }

  /** Projection: dropping the deleted words gives back curr[..j+1]. */
  lemma {:induction false} BacktrackNewSide(prev: seq<string>, curr: seq<string>, i: int, j: int)
    requires InRange(prev, curr, i, j)
    ensures NewSide(Backtrack(prev, curr, i, j)) == curr[..j + 1]
    decreases i + j + 2
  {
    if (i, j) != (-1, -1) {
      var i', j', s := BacktrackStep(prev, curr, i, j);
      BacktrackNewSide(prev, curr, i', j');
      Snoc(Backtrack(prev, curr, i', j'), s);
      if j' < j {
        PrefixSnoc(curr, j);
      }
    }
  }

  /** The walk emits as many unchanged words as the table value minus one. */
  lemma {:induction false} BacktrackCommonLength(prev: seq<string>, curr: seq<string>, i: int, j: int)
    requires InRange(prev, curr, i, j)
    ensures |Common(Backtrack(prev, curr, i, j))| == Score(prev, curr, i, j) - 1
    decreases i + j + 2
  {
    if (i, j) != (-1, -1) {
      var i', j', s := BacktrackStep(prev, curr, i, j);
      BacktrackCommonLength(prev, curr, i', j');
      Snoc(Backtrack(prev, curr, i', j'), s);
    }
  }

  /** The unchanged words form a longest common subsequence of prev[..i+1]
      and curr[..j+1], and its length is the table value minus one. */
  lemma BacktrackIsLcs(prev: seq<string>, curr: seq<string>, i: int, j: int, s: seq<string>)
    requires InRange(prev, curr, i, j)
    ensures var lcs := Common(Backtrack(prev, curr, i, j));
      IsSubseq(lcs, prev[..i + 1]) && IsSubseq(lcs, curr[..j + 1])
      && |lcs| == Score(prev, curr, i, j) - 1
      && (IsSubseq(s, prev[..i + 1]) && IsSubseq(s, curr[..j + 1]) ==> |s| <= |lcs|)
  {
    var segs := Backtrack(prev, curr, i, j);
    BacktrackOldSide(prev, curr, i, j);
    BacktrackNewSide(prev, curr, i, j);
    CommonInSides(segs);
    BacktrackCommonLength(prev, curr, i, j);
    if IsSubseq(s, prev[..i + 1]) && IsSubseq(s, curr[..j + 1]) {
      CommonBoundedByScore(prev, curr, i, j, s);
    }
  }

  /** Dropping the inserted words from the whole walk gives `prev`, dropping
      the deleted ones gives `curr`. */
  lemma WalkSides(prev: seq<string>, curr: seq<string>)
    ensures OldSide(Backtrack(prev, curr, |prev| - 1, |curr| - 1)) == prev
    ensures NewSide(Backtrack(prev, curr, |prev| - 1, |curr| - 1)) == curr
  {
    WalkOldSide(prev, curr);
    WalkNewSide(prev, curr);
  }

  lemma WalkOldSide(prev: seq<string>, curr: seq<string>)
    ensures OldSide(Backtrack(prev, curr, |prev| - 1, |curr| - 1)) == prev
  {
    BacktrackOldSide(prev, curr, |prev| - 1, |curr| - 1);
    WholePrefix(prev);
  }

  lemma WalkNewSide(prev: seq<string>, curr: seq<string>)
    ensures NewSide(Backtrack(prev, curr, |prev| - 1, |curr| - 1)) == curr
  {
    BacktrackNewSide(prev, curr, |prev| - 1, |curr| - 1);
    WholePrefix(curr);
  }

  /** The unchanged words of the whole walk are a longest common
      subsequence of `prev` and `curr`. */
  lemma WalkIsLcs(prev: seq<string>, curr: seq<string>, s: seq<string>)
    ensures var lcs := Common(Backtrack(prev, curr, |prev| - 1, |curr| - 1));
      IsSubseq(lcs, prev) && IsSubseq(lcs, curr)
      && (IsSubseq(s, prev) && IsSubseq(s, curr) ==> |s| <= |lcs|)
  {
    var segs := Backtrack(prev, curr, |prev| - 1, |curr| - 1);
    WalkSides(prev, curr);
    CommonInSides(segs);
    if IsSubseq(s, prev) && IsSubseq(s, curr) {
      WholePrefix(prev);
      WholePrefix(curr);
      CommonBoundedByScore(prev, curr, |prev| - 1, |curr| - 1, s);
      BacktrackCommonLength(prev, curr, |prev| - 1, |curr| - 1);
    }
  }

  lemma WholePrefix(s: seq<string>)
    ensures s[..|s|] == s
  {
  }

  /** The walk emits (i+1) + (j+1) segments less one per unchanged word. */
  lemma BacktrackLength(prev: seq<string>, curr: seq<string>, i: int, j: int)
    requires InRange(prev, curr, i, j)
    ensures |Backtrack(prev, curr, i, j)| == (i + 1) + (j + 1) - (Score(prev, curr, i, j) - 1)
  {
    var segs := Backtrack(prev, curr, i, j);
    BacktrackOldSide(prev, curr, i, j);
    BacktrackNewSide(prev, curr, i, j);
    BacktrackCommonLength(prev, curr, i, j);
    SideLengths(segs);
  }

  /** Comparing a revision with itself takes only the match branch: every
      segment is unchanged and the words come out in order. */
  lemma {:induction false} BacktrackIdentity(prev: seq<string>, i: int)
    requires -1 <= i < |prev|
    ensures var segs := Backtrack(prev, prev, i, i);
      |segs| == i + 1 && forall k :: 0 <= k < |segs| ==> segs[k] == Equal(prev[k])
    decreases i + 1
  {
    if i >= 0 {
      BacktrackIdentity(prev, i - 1);
    }
  }

  // ---------------------------------------------------------------------
  // Markup
  // ---------------------------------------------------------------------

  /** The markup of one segment, each followed by a space. */
  function SegmentMarkup(s: Segment): string
  {
    match s
    case Equal(t) => t + " "
    case Inserted(t) => "<ins>" + t + "</ins> "
    case Deleted(t) => "<del>" + t + "</del> "
  }

  /** The string `print` builds: the segments' markup in order. */
  function Markup(segs: seq<Segment>): string
    decreases |segs|
  {
    if |segs| == 0 then ""
    else Markup(segs[..|segs| - 1]) + SegmentMarkup(segs[|segs| - 1])
  }

  /** Markup is built segment by segment, left to right. */
  lemma MarkupSnoc(segs: seq<Segment>, s: Segment)
    ensures Markup(segs + [s]) == Markup(segs) + SegmentMarkup(s)
  {
    assert (segs + [s])[..|segs|] == segs;
  }

  /** A diff of unchanged words only is marked up as those words joined by
      spaces, with one trailing space. */
  lemma {:induction false} MarkupOfWords(segs: seq<Segment>, ts: seq<string>)
    requires |segs| == |ts| >= 1
    requires forall k :: 0 <= k < |segs| ==> segs[k] == Equal(ts[k])
    ensures Markup(segs) == Join(ts, ' ') + " "
    decreases |segs|
  {
    var n := |segs|;
    if n == 1 {
      assert segs[..0] == [];
    } else {
      var init, t := ts[..n - 1], ts[n - 1];
      assert forall k :: 0 <= k < n - 1 ==> segs[..n - 1][k] == Equal(init[k]);
      MarkupOfWords(segs[..n - 1], init);
      assert SegmentMarkup(segs[n - 1]) == t + " ";
      assert init + [t] == ts;
      JoinSnoc(init, t, ' ');
      SpacedSnoc(Join(init, ' '), t);
    }
  }

  /** One segment as a word of the markup: an unchanged word as it is, an
      inserted or deleted one wrapped in its tags. */
  function Tagged(s: Segment): string
  {
    match s
    case Equal(t) => t
    case Inserted(t) => "<ins>" + t + "</ins>"
    case Deleted(t) => "<del>" + t + "</del>"
  }

  /** The words of the markup, one per segment, in order. */
  function TaggedWords(segs: seq<Segment>): seq<string>
  {
    seq(|segs|, k requires 0 <= k < |segs| => Tagged(segs[k]))
  }

  /** The markup is the segments' words, each in its tags, joined by single
      spaces, with one trailing space. */
  lemma {:induction false} MarkupIsJoin(segs: seq<Segment>)
    requires |segs| >= 1
    ensures Markup(segs) == Join(TaggedWords(segs), ' ') + " "
    decreases |segs|
  {
    var n := |segs|;
    var init, s := segs[..n - 1], segs[n - 1];
    TaggedWordsSnoc(segs);
    SegmentTagged(s);
    if n == 1 {
      assert init == [];
    } else {
      MarkupIsJoin(init);
      JoinSnoc(TaggedWords(init), Tagged(s), ' ');
      SpacedSnoc(Join(TaggedWords(init), ' '), Tagged(s));
    }
  }

  lemma TaggedWordsSnoc(segs: seq<Segment>)
    requires |segs| >= 1
    ensures TaggedWords(segs) == TaggedWords(segs[..|segs| - 1]) + [Tagged(segs[|segs| - 1])]
  {
    var n := |segs|;
    var a, b := TaggedWords(segs), TaggedWords(segs[..n - 1]) + [Tagged(segs[n - 1])];
    assert forall k | 0 <= k < n :: a[k] == b[k] by {
      forall k | 0 <= k < n ensures a[k] == b[k] {
        if k < n - 1 {
          assert b[k] == Tagged(segs[..n - 1][k]);
        }
      }
    }
  }

  lemma SegmentTagged(s: Segment)
    ensures SegmentMarkup(s) == Tagged(s) + " "
  {
  }

  lemma SpacedSnoc(a: string, t: string)
    ensures (a + " ") + (t + " ") == (a + [' '] + t) + " "
  {
  }

  /** A diff of unchanged words only, none holding `c`, has no `c` in its
      markup (nor any tag, by taking `c` to be '<'). */
  lemma {:induction false} MarkupOfEqual(segs: seq<Segment>, c: char)
    requires c != ' '
    requires forall k :: 0 <= k < |segs| ==> segs[k].Equal? && c !in segs[k].token
    ensures c !in Markup(segs)
    decreases |segs|
  {
    if |segs| > 0 {
      MarkupOfEqual(segs[..|segs| - 1], c);
    }
  }

  /** The markup of a revision compared with itself holds no character
      that none of its words holds (other than the separating space). */
  lemma IdenticalMarkup(words: seq<string>, c: char)
    requires c != ' '
    requires forall k :: 0 <= k < |words| ==> c !in words[k]
    ensures c !in Markup(Backtrack(words, words, |words| - 1, |words| - 1))
  {
    var segs := Backtrack(words, words, |words| - 1, |words| - 1);
    BacktrackIdentity(words, |words| - 1);
    MarkupOfEqual(segs, c);
  }
}
