# delta — word-level diff, modelled in Dafny

`delta.go` computes the difference between two revisions of a text, one word
at a time. The result is either HTML, with `<del>`/`<ins>` tags, or plain
text, with `---`/`+++` markers. `Calculate` chains four stages:

1. `preprocess` tokenizes each revision. It normalises line endings,
   escapes HTML and trims the ends. It then turns blank lines and single
   line breaks into the sentinel words `&__DOUBLE__;` and `&__SINGLE__;`,
   and splits on single spaces.
2. `sequence` builds the longest-common-subsequence table over the two word
   sequences. It is indexed from -1, its border holds 1, and the extra row
   and column it allocates keep their 1.
3. `print` walks back from the last cell. It emits unchanged words, `<ins>`
   words and `<del>` words in document order. Insertion wins a tie.
4. `postprocess` finishes the markup in four steps:
   - it merges neighbouring tags of the same kind;
   - in plain-text mode, it rewrites the tags as markers;
   - it turns each sentinel, together with the white space around it, back
     into line breaks;
   - it trims the result.

The model follows that structure, one module per stage, plus the string
library the stages rely on:

- `Text` models the Go library calls delta.go uses, as plain functions:
  - `strings.Replace` with `-1` (leftmost, non-overlapping) is `ReplaceAll`.
  - `strings.Split` and a `Join` partner for it.
  - `strings.TrimSpace`, with `unicode.IsSpace`'s white space.
  - `html.EscapeString` (five entities), with an unescaping partner.
  - The `\r\n?` normalisation.
  - The sentinel regular expressions `(\s*?)SENTINEL(\s*)` are written out
    as a scanner over the string (`ReplaceSentinel`), with RE2's `\s` class.
- `Tokenizer` holds `Preprocess`.
- `Alignment` holds the table:
  - its specification is `Score`, the recurrence over cells `(i, j)` with
    -1 for the empty prefix;
  - `Sequence` is the imperative construction over an `array2<int>`. Cell
    `(i, j)` is stored at `[i+1, j+1]`. Its loops are proved against the
    specification.
- `Reconstruct` holds the walk:
  - `Print` reads the array exactly as delta.go does and builds the
    string;
  - `Backtrack` is the same walk over `Score`, returning the segments.
  - The two are proved to agree, and the walk is proved to produce a
    longest common subsequence.
- `Render` holds `Postprocess`.
- `Delta` holds `Calculate`, which runs `Sequence` and `Print` as delta.go
  does, and `Diff`, the same composition over the specifications.
- `Examples` works the documented calls, and a few more, through the model.

Beyond the stage-by-stage contracts, two properties of the whole pipeline
are proved for all inputs: the plain-text diff is the HTML diff with its
tags rewritten as markers (`Delta.DiffPlainIsRewrite`), and the sentinel
rewrite turns a sentinel and the white space around it into exactly its
line break(s) (`Text.ReplaceSentinelRestores`). The second is carried
through the whole pipeline for two unchanged lines of plain text
(`Delta.DiffIdenticalLines`). The rewrite also keeps a line break that
follows an escaped character (`Examples.EscapedLineRestored`). Three line
breaks in a row come back as one (`Examples.TripleBreakDiff`), because the
single rewrite swallows the blank line the double rewrite writes.

delta.go uses a Go map of maps for the table. Only its keys `-1 .. len`
are ever read, so a shifted two-dimensional array holds exactly that table.

An empty revision still yields one empty token (`strings.Split("", " ")`
is `[""]`), which the walk deletes. So comparing `""` with `"hello"` gives
`"<del></del> <ins>hello</ins>"`, and `"hello"` against `""` gives
`"<del>hello</del> <ins></ins>"`.
`Examples.EmptyToHello` and `Examples.HelloToEmpty` prove these outputs.

## Model

| member | source | states |
|---|---|---|
| Text.ReplaceAllLeftmost | delta.go:102-103 | `ReplaceAll` replaces the leftmost occurrence: the text before it, in which no occurrence starts, is copied, the occurrence becomes the replacement, and the scan resumes after it, so occurrences never overlap |
| Text.ReplaceAllFree | delta.go:110-111 | `ReplaceAll` copies a stretch that holds no first character of the pattern and replaces the rest on its own |
| Text.ReplaceAllOccurs | delta.go:102-103 | a word that shares no character with the replacement occurs after a replace-all only if it occurred before, and it is not the pattern |
| Text.ReplaceAllAbsent | delta.go:110-111 | a replace-all whose pattern does not occur leaves the string unchanged |
| Text.ReplaceAllChars | delta.go:102-103 | every character after a replace-all comes from the input or from the replacement |
| Text.ReplaceAllMiss | delta.go:110-111 | where the pattern is known to fail at the front, the front is copied unchanged |
| Text.Split | delta.go:104 | splitting gives at least one piece (the empty string gives one empty piece); no piece holds the separator; joining the pieces restores the input |
| Text.SplitJoin | delta.go:104 | splitting the join of separator-free pieces gives the pieces back |
| Text.TrimSpace | delta.go:101 | the result is a slice of the input with only white space cut off either end, and neither of its ends is white space |
| Text.TrimSpaceUnchanged | delta.go:126 | text whose ends are not white space is unchanged by trimming |
| Text.TrimTrailingSpace | delta.go:126 | trimming removes exactly one trailing space from text with non-space ends |
| Text.EscapeHtml | delta.go:101 | escaped text holds no `<`, `>`, `'` or `"`; each character is from the input or part of an entity; text without the five special characters is unchanged |
| Text.EscapeRoundTrip | delta.go:101 | unescaping the escaped text gives back the original |
| Text.EscapeOpensEntities | delta.go:101 | in escaped text no `&` is followed by `_`: every `&` written opens an entity, followed by a letter or `#` |
| Text.AmpNoUnderscoreWord | delta.go:124-125 | text in which no `&` comes before `_` holds no word starting with `&_`, so neither line-break sentinel |
| Text.NormalizeNewlines | delta.go:22 | no carriage return remains; the text never grows; text without carriage returns is unchanged; every non-newline character comes from the input |
| Text.NormalizeNewlinesIsReplace | delta.go:100 | normalising line endings is the same as replacing every `\r\n` by `\n` and then every remaining `\r` by `\n` |
| Text.ReplaceSentinelRestores | delta.go:23-24 | `ReplaceSentinel`, the rewrite `(\s*?)SENTINEL(\s*)`: text in which no match of the sentinel starts, and which does not end in white space, is copied (so an escaped `&#39;` or `&amp;` before a line break is kept); the sentinel together with the white space on both sides of it becomes exactly the line break(s); and the rewrite goes on after that |
| Text.ReplaceSentinelUnmatchedPrefix | delta.go:124-125 | a prefix in which no match of the sentinel starts, and which does not end in white space, is copied unchanged and the rewrite resumes right after it |
| Text.ReplaceSentinelUnmatched | delta.go:124-125 | text in which the sentinel does not occur is unchanged by `ReplaceSentinel` |
| Text.ReplaceSentinelOccurs | delta.go:124-125 | restoring line breaks creates no word free of white space and of the replacement's characters, and leaves no sentinel |
| Text.ReplaceSentinelAbsent | delta.go:124-125 | text without the sentinel's first character is unchanged by the restore |
| Text.ReplaceSentinelCommutes | delta.go:117-125 | a replace-all whose pattern and replacement hold no white space and none of the sentinel's characters gives the same result before or after the sentinel rewrite |
| Text.TrimSpaceCommutes | delta.go:117-126 | a replace-all whose pattern and replacement hold no white space gives the same result before or after trimming |
| Tokenizer.SentinelledChars | delta.go:100-103 | `Sentinelled`, the text that is split, holds no line break, carriage return or angle bracket |
| Tokenizer.Preprocess | delta.go:99-105 | there is at least one token; no token holds a space, line break, carriage return or angle bracket; joining the tokens with spaces gives the sentinelled text |
| Tokenizer.SentinelledPlain | delta.go:100-103 | plain text, with no line break, no character HTML escapes and no white space at its ends, reaches the split unchanged |
| Tokenizer.SentinelledTwoLines | delta.go:100-103 | two lines of plain text joined by one line break reach the split as the two lines around the space-padded single-break sentinel |
| Tokenizer.SentinelledOneLine | delta.go:100-103 | text without line breaks or carriage returns reaches the split HTML-escaped and trimmed, and otherwise unchanged |
| Tokenizer.PreprocessPlain | delta.go:99-105 | the tokens of plain text are its space-separated words |
| Alignment.Score | delta.go:55-69 | every cell lies between 1 and one more than the shorter prefix length |
| Alignment.ScoreSteps | delta.go:57-66 | each cell is at least its left and its upper neighbour, and at most one more than either |
| Alignment.ScoreMonotone | delta.go:55-69 | the table never decreases along rows and columns |
| Alignment.CommonBoundedByScore | delta.go:55-69 | every common subsequence of two prefixes is at most the cell's value minus 1 long |
| Alignment.SetOnes | delta.go:41-53 | every cell, including the extra row and column, becomes 1 |
| Alignment.Fill | delta.go:55-69 | every interior cell holds the recurrence's value, and the border and the extra row and column keep 1 |
| Alignment.Sequence | delta.go:38-72 | a new array of size `(len+2) x (len+2)` holding the recurrence at `[i+1, j+1]`, with border and extra row and column 1 |
| Reconstruct.GuardsComplementary | delta.go:84-90 | away from `(-1, -1)`, exactly one of the insert and delete guards holds, so no cell is left without a step |
| Reconstruct.PrintStep | delta.go:80-90 | one step of `Print`, the walk over the array, emits the markup of the segment the walk over the specification emits, and moves to the same smaller cell |
| Reconstruct.PrintIsMarkup | delta.go:77-94 | the string `Print` builds from the array is `Markup` of the segments of `Backtrack`, the walk over the specification |
| Reconstruct.BacktrackStep | delta.go:80-90 | each step of `Backtrack` is a match of equal words, an insertion or a deletion, lowers `i + j`, and lowers the cell value by one exactly on a match |
| Reconstruct.SideLengths | delta.go:80-90 | old words plus new words equals segments plus unchanged words |
| Reconstruct.BacktrackOldSide | delta.go:77-94 | the unchanged and deleted words of the walk, in order, are the previous prefix |
| Reconstruct.BacktrackNewSide | delta.go:77-94 | the unchanged and inserted words of the walk, in order, are the current prefix |
| Reconstruct.BacktrackCommonLength | delta.go:80-82 | the walk keeps exactly (cell value minus 1) words unchanged |
| Reconstruct.BacktrackIsLcs | delta.go:77-94 | the unchanged words form a common subsequence of both prefixes, and no common subsequence is longer |
| Reconstruct.WalkSides | delta.go:33 | the walk from the last cell reproduces both whole revisions |
| Reconstruct.WalkIsLcs | delta.go:33 | the walk from the last cell keeps a longest common subsequence of the two revisions |
| Reconstruct.BacktrackLength | delta.go:77-94 | the walk emits (i+1) + (j+1) minus (cell value minus 1) segments |
| Reconstruct.BacktrackIdentity | delta.go:80-82 | walking a sequence against itself keeps every word, in order, and marks nothing |
| Reconstruct.MarkupIsJoin | delta.go:80-90 | `Markup` (with `SegmentMarkup`) is the segments' words joined by single spaces, with one trailing space: an unchanged word as it is, an inserted word inside `<ins>`/`</ins>`, a deleted word inside `<del>`/`</del>` |
| Reconstruct.MarkupOfWords | delta.go:82 | unchanged words are marked up as the words joined by spaces, plus a trailing space |
| Reconstruct.IdenticalMarkup | delta.go:80-82 | walking words against themselves adds no character other than a space |
| Render.Postprocess | delta.go:109-127 | the finished diff has no white space at its ends and no sentinel; in plain-text mode it holds no tag |
| Render.PlainRemovesTag | delta.go:117-122 | after `Plain`, the plain-text rewrite, no tag remains |
| Render.RestoreRemovesSentinels | delta.go:124-126 | no sentinel survives `Restore`, the restoration of line breaks and the trim |
| Render.MergeCreatesNoWord | delta.go:110-111 | `Merge` brings in no word without a space |
| Render.PlainCreatesNoWord | delta.go:117-122 | the plain-text rewrite brings in no word without `+` and `-` |
| Render.PostprocessCreatesNoWord | delta.go:109-127 | any word free of white space (and, in plain-text mode, of `+` and `-`) found in the output was in the markup |
| Render.RestoreWithoutSentinel | delta.go:124-126 | text without `&` is only trimmed |
| Render.RestoreCommutes | delta.go:124-126 | `Restore` commutes with a replace-all whose pattern and replacement hold no white space and share no character with either sentinel |
| Render.RestorePlain | delta.go:117-126 | `Restore` and `Plain` give the same result in either order |
| Render.PostprocessPlainIsRewrite | delta.go:109-127 | the plain-text finish is the HTML finish with its tags rewritten as markers |
| Render.RestoreTwoLines | delta.go:124-126 | two lines of plain text around the padded single-break sentinel, with a trailing space, are restored to the lines joined by one line break |
| Render.PostprocessTwoLines | delta.go:107-127 | the markup of two unchanged lines of plain text is finished as those lines joined by one line break, in either mode |
| Render.PostprocessUntagged | delta.go:109-127 | untagged, sentinel-free markup with a trailing space comes back without that space |
| Render.RestoreEscaped | delta.go:124-126 | text in which no `&` comes before `_`, with non-space ends, followed by the markup's trailing space, is restored to itself |
| Delta.FinishPrinted | delta.go:33 | postprocessing what `Print` builds over the array is `Finish`, the finished markup of the specification walk |
| Delta.Calculate | delta.go:30-34 | the result is `Diff`, the composition of the specifications; its ends are not white space; it holds no sentinel; in plain-text mode it holds no tag |
| Delta.DiffIdentical | delta.go:30-34 | a revision compared with itself yields no angle bracket, so no tag, in either mode |
| Delta.DiffIdenticalPlain | delta.go:30-34 | plain text compared with itself comes back exactly, in either mode |
| Delta.DiffPlainIsRewrite | delta.go:30-34 | the plain-text diff is the HTML diff with `<ins>`, `</ins>` rewritten as `+++` and `<del>`, `</del>` as `---` |
| Delta.DiffIdenticalLines | delta.go:30-34 | two lines of plain text compared with themselves come back exactly, line break included, in either mode |
| Delta.DiffIdenticalRestored | delta.go:30-34 | any revision compared with itself gives its sentinelled text with only the line-break restore and the trim applied, in either mode |
| Delta.DiffIdenticalEscaped | delta.go:30-34 | a revision without line breaks compared with itself gives its HTML-escaped, trimmed text, in either mode |
| Delta.NoAngleCreated | delta.go:109-127 | postprocessing brings in no angle bracket |
| Examples.HelloWorldHtml | delta.go:8-9 | the first documented call gives `hello <del>world</del> <ins>earth</ins>` |
| Examples.HelloWorldPlain | delta.go:11-12 | the second documented call gives `hello ---world--- +++earth+++` |
| Examples.EmptyToHello | delta.go:30-34 | `""` against `"hello"` gives `<del></del> <ins>hello</ins>` |
| Examples.HelloToEmpty | delta.go:30-34 | `"hello"` against `""` gives `<del>hello</del> <ins></ins>` |
| Examples.IdenticalWords | delta.go:30-34 | `"a b c"` against itself gives `a b c` |
| Examples.AppendedWord | delta.go:30-34 | `"a b"` against `"a b c"` gives `a b <ins>c</ins>` |
| Examples.IdenticalLines | delta.go:30-34 | `"a\nb"` against itself gives `"a\nb"` in either mode |
| Examples.MergedDeletions | delta.go:110 | two neighbouring deleted words are merged into one deletion holding both |
| Examples.AppendedHtml | delta.go:109-127 | untagged text followed by one insertion is finished by dropping the trailing space only |
| Examples.EscapedLineRestored | delta.go:101-103 | the intermediate text of `"don't\nstop"`, `"don&#39;t &__SINGLE__; stop"`, gets its line break back: the `&` of the entity starts no sentinel |
| Examples.BlankLineSwallowed | delta.go:124-126 | `"a &__DOUBLE__;  &__SINGLE__; b "` is restored to `"a\nb"`: the single rewrite's leading run takes the blank line the double rewrite has just written |
| Examples.TripleBreakDiff | delta.go:30-34 | `"a\n\n\nb"` compared with itself gives `"a\nb"` in either mode, so three line breaks come back as one |
| Examples.EscapedWord | delta.go:30-34 | `"don't"` compared with itself gives `"don&#39;t"` in either mode |

## Left out

- Bytes and runes: Go strings are UTF-8 byte strings, and the model's are
  sequences of Unicode characters. `html.EscapeString`, `strings.Split` and
  the replacements work on ASCII characters, so this changes nothing for
  valid UTF-8. Invalid UTF-8 is not modelled.
- The regular-expression engine: the three patterns are not compiled. They
  are modelled directly as the replacement they perform.
- `html.EscapeString` here covers the five characters and the entity
  spellings Go writes (`&#39;`, `&#34;`). The package itself is not
  modelled.
- Go's map of maps for the table is modelled as a shifted `array2<int>`.
  Map allocation by `make` and the membership test on line 45 have no
  counterpart, since every key the loops write is also created there.
- Recursion depth: `print` recurses once per segment. Stack exhaustion on
  very long inputs is not modelled.
- Reconstruct.GuardsComplementary: Dafny proves it from the guard
  definitions alone, with no proof steps. It is kept as the statement that
  the walk always takes some step away from `(-1, -1)`.
- Render.Merge: it is proved to bring in nothing but spaces, and a merge of two
  deletions is worked as an example; which merges happen in an arbitrary
  markup is not characterised in general. `Merge` works on the markup
  string, not on segments. Saying which tag pairs disappear, or that none
  is left, needs a grammar relating that string back to the segment walk.
  The model defines the string only as the output of `Markup`, so that
  grammar is not part of it.
