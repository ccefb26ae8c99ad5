# Question formatter, modelled in Dafny

The system reformats fill-in-the-blank exam questions collected from several
teachers into one house style. `format_question` takes a question text and an
answer text and chains six stages:

1. `normalize_blanks` rewrites every blank idiom (empty brackets, runs of
   underscores, a bracketed letter, digit or circled number) to the in-band
   marker `{{BLANK}}`.
2. `normalize_standalone_letters` then turns a single capital letter standing
   between Japanese characters into a marker. It first protects technical
   terms (`T細胞`, `のA型`, …) behind placeholders, repeats its pass until
   nothing changes, and restores the placeholders (the cell placeholders by
   two identical loops, both modelled).
3. `convert_desu_masu` unifies question endings to `はなにか。` and rewrites
   the polite register (`です`, `ます`, …) to the plain one.
4. `clean_text` removes Markdown emphasis, doubled punctuation and runs of
   blanks, and trims the text.
5. `format_blanks` renders the markers: one blank unlabelled, two or more
   labelled A–Z in order.
6. `format_answer` relabels the answer as `正解：A. …　　B. …`. It tries a
   multi-line parser, then three single-line strategies (circled numbers,
   comma-delimited letters, space-delimited letters with bracket
   protection), then a raw fallback.

Text is `seq<char>`: a Dafny `char` is a Unicode scalar value, as a Python
`str` element is a code point. Each regular expression of the program is its
own scanner. `Patterns.MatchLen` gives the length of a match at the start of
a text. `Patterns.Sub` is the leftmost, non-overlapping scan of `re.sub`, and
the `findall` scans of `format_answer` are written out in module
`AnswerFormatter` with their lazy and greedy quantifiers and lookaheads.
Where the program folds over a table or loops, the model has a method with
that loop. Each such method is proved equal to a specification function, and
the properties are proved about the function.

Modules, one per stage: `Text` (string primitives), `Patterns` (the regular
expressions and `re.sub`), `BlankDetector` (stages 1–2), `Register` (3),
`Cleaner` (4), `BlankFormatter` (5), `AnswerFormatter` (6), `Pipeline`
(`format_question`).

Three behaviours of the code a reader may not expect:

- A question with no blank idiom can still get blanks, from standalone
  letters.
- More than 26 markers leave the 27th and later as literal `{{BLANK}}`.
- With 26 entries already made, an unlabelled answer line is dropped.

## Model

| member | source | states |
|---|---|---|
| Text.Upper | app.py:254 | `str.upper()` on a letter gives an upper-case letter; an upper-case letter is kept |
| Text.StartsWith | app.py:205 | holds iff the word is no longer than the text and is its prefix |
| Text.SkipPrefix | app.py:185 | a prefix without the word's first character passes unchanged through `replace`, `replace(…, 1)` and `count` |
| Text.AtFront | app.py:192 | a text starting with the word has its first replacement and first counted occurrence there |
| Text.SepRun | app.py:235 | the greedy run of whitespace and extra characters: all of them inside, none right after |
| Text.SpaceRun | app.py:205 | greedy `\s*`: every character inside is whitespace, the next one is not |
| Text.ClassRun | app.py:169-172 | greedy run of a character class: all inside, none right after |
| Text.LStrip | app.py:174 | `lstrip()`: a suffix of the text, everything cut is whitespace, the result does not start with whitespace |
| Text.RStrip | app.py:174 | `rstrip()`: a prefix of the text, everything cut is whitespace, the result does not end with whitespace |
| Text.Strip | app.py:197 | `strip()`: no whitespace at either end |
| Text.CountZero | app.py:185 | a text in which `count` finds nothing is unchanged by `replace` and `replace(…, 1)` |
| Text.StripSlice | app.py:197 | `strip()` keeps a contiguous piece of the text |
| Text.StripWithin | app.py:174 | stripping never introduces a character |
| Text.TrimmedStrip | app.py:197 | stripping a text already trimmed changes nothing |
| Text.SepRunOver | app.py:235 | a run of separators followed by a value is consumed exactly |
| Text.ClassRunOver | app.py:243 | a run of class characters followed by a non-class character is consumed exactly |
| Text.RStripChars | app.py:271 | `rstrip(",、")`: a prefix of the value whose last character is neither `,` nor `、` |
| Text.Split | app.py:226 | `split('\n')`: at least one piece, no piece holds the separator, joining gives the text back, several pieces iff the separator occurs |
| Text.NatToString | app.py:221 | `str(i)` is a non-empty string of decimal digits |
| Patterns.AltLen | app.py:82 | a match of an alternation has the length of one of its alternatives, which the text starts with |
| Patterns.AltFound | app.py:97 | the matched prefix is one of the alternatives |
| Patterns.LazyClose | app.py:125 | the lazy `(.+?)__` ends at an occurrence of the closing delimiter, or fails |
| Patterns.LazyCloseAt | app.py:125 | the lazy close stops at the first closing delimiter |
| Patterns.LastNewline | app.py:176 | the index of the last newline of a text, or -1 when there is none |
| Patterns.EmptyBracketsLen | app.py:13-16 | the match of an empty bracket pair fits in the text |
| Patterns.RepeatedLen | app.py:17-18 | the match of a run of underscores fits in the text |
| Patterns.BracketedLabelLen | app.py:19-23 | the match of a bracketed label fits in the text |
| Patterns.EndingLen | app.py:49-60 | the match of a question ending fits in the text |
| Patterns.BlankLineLen | app.py:176 | the match of `\n\s*\n` fits in the text |
| Patterns.EmphasisLen | app.py:160-162 | an emphasis match holds both delimiters and at least one character |
| Patterns.StandaloneLen | app.py:119 | the match of a standalone-letter triple fits in the text |
| Patterns.CellTermLen | app.py:90 | a cell-term match is longer than its letter |
| Patterns.TechTermLen | app.py:97-98 | a technical-term match holds the Japanese character, the letter and a suffix |
| Patterns.TechRestoreLen | app.py:123 | a matched `__TECH_X__` placeholder has exactly ten characters |
| Patterns.CellRestoreLen | app.py:125 | a matched cell placeholder holds its head, a value and the closing `__` |
| Patterns.MatchLen | app.py:12-24 | the match of any pattern of the program fits in the text |
| Patterns.EmptyBracketsShape | app.py:13-16 | a match of an empty-bracket idiom is the opening bracket, whitespace only, and the closing bracket |
| Patterns.EmptyBracketsOf | app.py:13-16 | conversely, the opening bracket, whitespace and a closing bracket that is not whitespace are matched up to that bracket |
| Patterns.RepeatedShape | app.py:17-18 | `_{2,}` matches iff the text starts with two of the character, and then takes its whole run |
| Patterns.BracketedLabelShape | app.py:19-23 | a match of a bracketed-label idiom is an opening bracket, one label character with only whitespace around it, and a closing bracket |
| Patterns.BracketedLabelOf | app.py:19-23 | conversely, such a window whose label and closing bracket are not whitespace is matched whole |
| Patterns.EmptyBracketsSpan | app.py:13-16 | an empty bracket pair with any whitespace inside is one match |
| Patterns.BracketedLabelSpan | app.py:19-23 | a bracketed label with any whitespace around the label is one match |
| Patterns.IdiomHead | app.py:12-24 | a match of a blank idiom starts with a character not in `{{BLANK}}` and is rewritten to `{{BLANK}}` |
| Patterns.IdiomWindow | app.py:12-24 | no character of a blank-idiom match is `{` |
| Patterns.IdiomPrefix | app.py:12-24 | whether a blank idiom matches is decided by the characters its match covers |
| Patterns.IdiomCut | app.py:12-24 | a blank-idiom match cannot reach into a marker that follows |
| Patterns.IdiomWhole | app.py:139 | a blank idiom matching a whole text turns it into one `{{BLANK}}` |
| Patterns.SubWhole | app.py:139 | a pattern matching a whole text rewrites all of it |
| Patterns.NoMatchDrop | app.py:139 | a pattern that matches nowhere in a text matches nowhere in any suffix |
| Patterns.FrontClear | app.py:139 | characters of `{{BLANK}}` in front of a text create no blank-idiom match |
| Patterns.PassKeepsMiss | app.py:138-139 | a pass of one blank idiom creates no match of another where there was none |
| Patterns.SubKeepsClear | app.py:138-139 | after a pass of a blank idiom none of its own matches is left, and no match of another idiom is created |
| Patterns.FoldClears | app.py:138-139 | after the passes of a table of blank idioms none of them matches anywhere |
| Patterns.MarkerFixed | app.py:139 | a blank-idiom pass leaves `{{BLANK}}` alone |
| Patterns.MarkerKept | app.py:138-139 | once the passes have produced a lone `{{BLANK}}`, the later ones keep it |
| Patterns.NoMatchCons | app.py:139 | "matches nowhere" unfolds at the first character |
| Patterns.SubNoMatch | app.py:139 | `re.sub` with a pattern that matches nowhere returns the text unchanged |
| Patterns.SubAllNoMatch | app.py:138-139 | the table fold changes nothing when no pattern matches |
| Patterns.SubHead | app.py:139 | the first character of a pass is that of the rewrite or the kept character |
| Patterns.NoPairConcat | app.py:153-154 | a forbidden adjacent pair absent from two texts and from their seam is absent from their concatenation |
| Patterns.SubNoPair | app.py:153-154 | a pass that matches every occurrence of a pair, and rewrites it into text free of the pair, leaves no such pair |
| Patterns.SubKeepNoPair | app.py:154 | a character kept by a pass creates no forbidden pair |
| Patterns.SubNoChar | app.py:171-172 | a pass that matches every occurrence of a character, and never emits it, removes it |
| Patterns.SubAppend | app.py:151 | a pass over two texts that no match straddles is the concatenation of the two passes |
| Patterns.SubAppendStep | app.py:151 | one step of that concatenation |
| Patterns.SubStep | app.py:139 | one step of the scan: rewrite and resume after the match, or keep one character |
| Patterns.SeparableTail | app.py:151 | a text's separability from the next one survives dropping a prefix |
| BlankDetector.ScoreCons | app.py:106-119 | the count of letter-after-context pairs grows by one exactly at such a pair |
| BlankDetector.ScoreMarker | app.py:113 | the marker adds no such pair |
| BlankDetector.StandaloneMatchStep | app.py:109-120 | a standalone match is a context character, a capital, a context character, and becomes context + marker + context |
| BlankDetector.StandaloneKeepStep | app.py:120 | without a match the pass keeps the first character |
| BlankDetector.StandaloneHead | app.py:120 | the pass keeps the text's first character |
| BlankDetector.StandaloneScoreMatch | app.py:109-120 | a rewritten standalone letter lowers the score |
| BlankDetector.StandaloneScoreKeep | app.py:120 | a kept character does not raise the score |
| BlankDetector.StandaloneScore | app.py:116-120 | each pass that finds a triple lowers the score by at least one, so the loop ends |
| BlankDetector.StandaloneFixedIff | app.py:117 | a pass changes nothing iff no standalone triple is left |
| BlankDetector.Fixpoint | app.py:116-120 | the loop's result has no standalone triple left and a further pass changes nothing |
| BlankDetector.Passes | app.py:116-120 | the number of changing passes is bounded by the score of the input |
| BlankDetector.FixpointStep | app.py:117-120 | one more pass does not change the loop's result |
| BlankDetector.BlankPatternsIdioms | app.py:12-24 | every entry of `BLANK_PATTERNS` is a blank idiom in the sense above |
| BlankDetector.IdiomsCleared | app.py:138-139 | after the loop over `BLANK_PATTERNS`, no entry of the table matches anywhere in the text |
| BlankDetector.EmptyBracketsMarked | app.py:13-16 | an empty bracket pair with any whitespace inside becomes `{{BLANK}}` |
| BlankDetector.RepeatedMarked | app.py:17-18 | a run of two or more underscores becomes one `{{BLANK}}` |
| BlankDetector.BracketedLabelMarked | app.py:19-23 | a bracketed label with any whitespace around it becomes `{{BLANK}}` |
| BlankDetector.IdeographicBlank | app.py:13 | `（　）` comes out of the loop over the whole table as one `{{BLANK}}` |
| BlankDetector.UntouchedNormalized | app.py:133-144 | a text with no idiom, no protected term, no placeholder and no triple passes `normalize_blanks` unchanged |
| BlankDetector.RepeatStandalone | app.py:116-120 | the `while` loop computes the fixpoint |
| BlankDetector.NormalizeStandaloneLetters | app.py:62-131 | protect cell terms in table order, protect technical terms, repeat, restore technical terms, then run the cell restore loop twice |
| BlankDetector.NormalizeBlanks | app.py:133-144 | the loop over `BLANK_PATTERNS`, then the standalone stage |
| BlankDetector.ScoreNoBefore | app.py:106 | a text with no context character before its end has score 0 |
| BlankDetector.ScoreNoUpper | app.py:119 | a text with no capital after its start has score 0 |
| BlankDetector.ScoreConcat | app.py:119 | the score of a concatenation is the sum plus the seam |
| BlankDetector.ScoreZeroNoMatch | app.py:119 | score 0 means no standalone triple |
| BlankDetector.StandaloneLocal | app.py:119 | the standalone pattern looks at three characters only |
| BlankDetector.StandaloneSeparableLeft | app.py:119-120 | no standalone match straddles the left edge of a placeholder |
| BlankDetector.StandaloneSeparableRight | app.py:119-120 | no standalone match straddles the right edge of a placeholder |
| BlankDetector.StandaloneLeftOf | app.py:120 | the pass splits at the left edge of a placeholder |
| BlankDetector.StandaloneRightOf | app.py:120 | a placeholder passes verbatim and the pass continues after it |
| BlankDetector.StandaloneAround | app.py:120 | a pass over text around a placeholder keeps the placeholder verbatim |
| BlankDetector.NoMatchAround | app.py:117 | at the fixpoint the text on both sides of a placeholder has no triple |
| BlankDetector.FixpointAround | app.py:86-120 | a protected term's placeholder goes through the whole loop verbatim, never made a blank |
| BlankDetector.TechTermShape | app.py:97-98 | the technical-term pass consumes the Japanese character, emits it, then `__TECH_X__` and the suffix |
| BlankDetector.TechSuffixFound | app.py:82 | the suffix after the letter is one of the excluded suffixes |
| BlankDetector.TechTermParts | app.py:98 | the technical-term rewrite, piece by piece |
| BlankDetector.CellTermShape | app.py:89-90 | a cell term `T`/`B`/`K`/`NK` + suffix becomes `__PROTECT_<l>_<suffix>__` |
| BlankDetector.TechPlaceholderInert | app.py:98-123 | a technical placeholder cannot take part in a triple, and the restore turns it back into its letter |
| BlankDetector.CellPlaceholderInert | app.py:90 | a cell placeholder cannot take part in a triple |
| BlankDetector.CellPlaceholderRestore | app.py:124-125 | the restore turns a cell placeholder back into its letter and suffix |
| Register.ConvertDesuMasu | app.py:146-155 | the question-ending table, then the politeness table, in order |
| Register.DesuPass | app.py:44 | after the `です` pass no `です` is left |
| Register.MasuPass | app.py:45 | after the `ます` pass no `ます` is left, and no `です` appears |
| Register.NoDesuMasu | app.py:27-46 | the converted text contains neither `です` nor `ます` |
| Register.NoStraddle | app.py:151 | a word cannot run into a text that starts with a character the word lacks |
| Register.EndingSeparable | app.py:151 | no question ending straddles such a seam |
| Register.LiteralSeparable | app.py:154 | no politeness pattern straddles such a seam |
| Register.SubBefore | app.py:151-154 | a pass over such a seam splits into two passes |
| Register.SubAllBefore | app.py:150-154 | a table fold leaves an unaffected tail in place |
| Register.SubAllFront | app.py:150-151 | the fold is the first pass followed by the rest of the table |
| Register.WordMissing | app.py:49-60 | a pattern whose word needs a character absent from the text changes nothing |
| Register.NanikaEndings | app.py:52-60 | `はなにか。` survives every ending after the first |
| Register.NanikaPolite | app.py:27-46 | `はなにか。` survives every politeness pattern |
| Register.EndingsKeepNanika | app.py:150-151 | the ending table leaves a trailing `はなにか。` in place |
| Register.PoliteKeepsNanika | app.py:153-154 | the politeness table leaves a trailing `はなにか。` in place |
| Register.FirstEnding | app.py:50 | the first ending turns `は何でしょうか。` into `はなにか。` |
| Register.ConvertedDeshouka | app.py:149-154 | a text ending `は何でしょうか。` ends as `はなにか。` |
| Register.SecondEnding | app.py:51 | the second ending turns `は何ですか？` into `はなにか。` |
| Register.SecondEndingSkipsFirst | app.py:50 | the first ending does not touch `は何ですか？` |
| Register.ConvertedDesuka | app.py:149-154 | a text ending `は何ですか？` ends as `はなにか。` |
| Cleaner.RunStep | app.py:169 | one step of a run-collapsing pass |
| Cleaner.RunHead | app.py:169 | a run pass starts with the collapsed character or the kept one |
| Cleaner.RunNoRepeat | app.py:169-172 | after a run pass the replacement character never appears twice in a row |
| Cleaner.RunRemoves | app.py:169-172 | a run pass removes every other character of its class |
| Cleaner.SliceKeeps | app.py:174 | a piece of a text keeps its absent pairs and characters |
| Cleaner.RunKeepsPair | app.py:171-172 | a later run pass does not create a pair an earlier pass removed |
| Cleaner.RunKeepsChar | app.py:171-172 | a later run pass does not bring back a removed character |
| Cleaner.BlankLineKeepsPair | app.py:176 | the blank-line pass creates no pair of non-newline characters |
| Cleaner.BlankLineKeepsChar | app.py:176 | the blank-line pass introduces no character but the newline |
| Cleaner.BlankLineShape | app.py:176 | a blank-line match starts and ends with a newline |
| Cleaner.BlankLineStep | app.py:176 | one step of the blank-line pass |
| Cleaner.BlankLineLast | app.py:176 | the pass keeps a last character that is not a newline |
| Cleaner.BlankLineFirst | app.py:176 | the pass keeps a first character that is not a newline |
| Cleaner.BlankLineKeepsTrim | app.py:174-176 | the blank-line pass after `strip()` leaves no whitespace at either end |
| Cleaner.BlankLineAt | app.py:176 | `\n\s*\n` matches exactly at a newline whose following whitespace holds another newline |
| Cleaner.BlankLinePlain | app.py:176 | text without a newline passes the blank-line pass unchanged |
| Cleaner.MatchLeavesClear | app.py:176 | the whitespace right after a match holds no newline |
| Cleaner.LeadKept | app.py:176 | the pass keeps the leading whitespace of a text free of newlines |
| Cleaner.BlankLineFree | app.py:176 | in the pass's output the whitespace after every newline holds no newline |
| Cleaner.BlankFreeNoBlankLine | app.py:176 | hence between any two newlines of the output stands a character that is not whitespace |
| Cleaner.EmphasisSpan | app.py:160-162 | a delimiter, text without a newline or the delimiter's character, and the delimiter form one match |
| Cleaner.EmphasisUnwrapped | app.py:160-162 | such emphasised text is replaced by the text inside |
| Cleaner.BoldUnwrapped | app.py:160 | `**x**` becomes `x` |
| Cleaner.ItalicUnwrapped | app.py:162 | `*x*` becomes `x` |
| Cleaner.RunsTidy | app.py:169-172 | the three run passes leave no U+3000, no double space, no `，` or `．`, no `、、` or `。。` |
| Cleaner.StripKeepsTidy | app.py:174 | `strip()` keeps that |
| Cleaner.BlankLineKeepsTidy | app.py:176 | the blank-line pass keeps that |
| Cleaner.BeforeStripEnds | app.py:160-172 | the substitutions end with the three run passes |
| Cleaner.CleanText | app.py:157-177 | no whitespace at either end, no U+3000, no two spaces in a row, no `，` or `．`, no `、、` or `。。`, and no blank line: between any two newlines stands a character that is not whitespace |
| Cleaner.CommaTakesBrace | app.py:166 | `,.` is a wildcard: a comma before a marker takes its first brace and becomes `.` |
| BlankFormatter.Letter | app.py:188 | the i-th entry of `labels` is an upper-case letter |
| BlankFormatter.LabelPlain | app.py:192 | a rendered label holds no `{` |
| BlankFormatter.FormatBlanks | app.py:179-193 | count 0 unchanged, count 1 all markers unlabelled, otherwise `blank_count` rounds of which the first 26 label |
| BlankFormatter.MarkerBoundary | app.py:185-192 | no marker can start inside a marker-free piece and run on into the following marker or blank, since `{{BLANK}}` overlaps no copy of itself and holds no `（` |
| BlankFormatter.Boundary | app.py:185-192 | the same for any word that starts `{{`, has no later `{` and no `（` |
| BlankFormatter.PassPiece | app.py:185-192 | a marker-free piece before a marker or blank is passed over by `replace`, `replace(…, 1)` and `count` |
| BlankFormatter.PassLabelled | app.py:190-192 | the already labelled part is passed over by `replace(…, 1)` and `count` |
| BlankFormatter.LabelFront | app.py:192 | a label starts with `（` and is passed over by every search for a marker |
| BlankFormatter.JoinCons | app.py:192 | a joined text is its first piece, the marker and the rest |
| BlankFormatter.LabelStep | app.py:192 | round k labels the k-th marker and leaves the rest |
| BlankFormatter.LabelsInOrder | app.py:190-192 | after k rounds the first k markers carry labels A, B, … in order and the others are untouched |
| BlankFormatter.CountMarkers | app.py:319 | a text of n+1 marker-free pieces joined by markers has n markers |
| BlankFormatter.WideEverywhere | app.py:185 | count 1 replaces every marker by the wide blank |
| BlankFormatter.AllLabelled | app.py:186-192 | n markers with n in 2..26 all get labels in order and none is left |
| BlankFormatter.BeyondLabels | app.py:190-192 | beyond 26 markers the first 26 are labelled and the rest stay literal markers |
| BlankFormatter.ManyRounds | app.py:190-191 | rounds after the 26th change nothing |
| BlankFormatter.StrayBrace | app.py:190-192 | a `{` of the text's own beside a marker does not disturb the labels: `x{`, marker, `y`, marker, `z` gives `x{`, label A, `y`, label B, `z` |
| BlankFormatter.OneOrNone | app.py:181-185 | count 0 returns the text; count 1 makes every marker the unlabelled blank |
| AnswerFormatter.StripAnswerPrefix | app.py:205 | without a leading `正解：`/`正解:` the text is kept; with one, it and the whitespace after it are removed |
| AnswerFormatter.SpaceRunLStrip | app.py:205 | removing `\s*` is `lstrip()` |
| AnswerFormatter.LabelRemoved | app.py:205 | `正解：` or `正解:` and whitespace are removed, nothing else |
| AnswerFormatter.LabelRemovedOnce | app.py:205 | only one leading label is removed |
| AnswerFormatter.CircledLetter | app.py:214-219 | a circled number maps to a letter A–T |
| AnswerFormatter.CircledInOrder | app.py:214-219 | the i-th circled number ①–⑳ maps to the i-th letter |
| AnswerFormatter.NumLabelKeys | app.py:221 | `str(i)` for i in 1..26 maps to the i-th letter |
| AnswerFormatter.NumLabelOnlyKeys | app.py:221 | nothing else is a key of `num_to_alpha` |
| AnswerFormatter.LineTail | app.py:235 | the value `(.+)$` after the separators: non-empty, a suffix of the line; none iff nothing is left to give back |
| AnswerFormatter.CircledLine | app.py:235 | the circled line pattern matches iff the line has two characters and starts with a circled number |
| AnswerFormatter.NumberLine | app.py:243 | the number line pattern matches iff the line has two characters and starts with a digit; the number is the leading digits |
| AnswerFormatter.LetterLine | app.py:252 | the letter line pattern matches iff the line has three characters, starts with a letter followed by a separator |
| AnswerFormatter.NumberedLetter | app.py:246 | the label of a numbered line is an upper-case letter |
| AnswerFormatter.MakeEntry | app.py:239 | `f'{label}. {value}'`: the label, `. `, the value |
| AnswerFormatter.LineEntry | app.py:230-260 | a line gives a well-formed entry or nothing |
| AnswerFormatter.ParseLines | app.py:228-260 | the per-line loop computes the fold of the line entries |
| AnswerFormatter.LineEntriesLabelled | app.py:230-260 | at most one entry per line, each a letter, `. ` and a value |
| AnswerFormatter.LineEnds | app.py:231 | a line already trimmed is kept by `strip()` |
| AnswerFormatter.TailIsValue | app.py:235 | the separators are consumed and the rest is the value |
| AnswerFormatter.CircledLineOf | app.py:235 | `①` + separators + value parses to that circled number and value |
| AnswerFormatter.CircledLineEntry | app.py:235-240 | such a line gives the entry of the mapped letter and the value |
| AnswerFormatter.DigitsOver | app.py:243 | the leading digits are consumed exactly |
| AnswerFormatter.NumberLineOf | app.py:243 | a number + separators + value parses to that number and value |
| AnswerFormatter.NumberLineEntry | app.py:243-249 | such a line gives the entry of the number's letter and the value |
| AnswerFormatter.LetterLineOf | app.py:252 | a letter + separators + value parses to that letter and value |
| AnswerFormatter.LetterLineEntry | app.py:252-256 | such a line gives the upper-cased letter and the value |
| AnswerFormatter.PlainLineEntry | app.py:257-260 | an unlabelled line gets the letter of its position, or is dropped after 26 entries |
| AnswerFormatter.CircledLazy | app.py:265 | the lazy value ends at the first place where the lookahead holds, and holds no circled number |
| AnswerFormatter.CircledAt | app.py:265 | the circled pattern matches iff a circled number is followed by a non-circled character |
| AnswerFormatter.CircledFindall | app.py:266 | every tuple found carries a circled number |
| AnswerFormatter.LazyEnd | app.py:274-294 | a lazy `+?` ends only where its lookahead holds, every position passed being in the value class |
| AnswerFormatter.LabelLazy | app.py:274-294 | the lazy value, when it ends, ends where the lookahead holds |
| AnswerFormatter.LabelTry | app.py:274-294 | the backing-off `\s*` gives a non-empty value inside the text |
| AnswerFormatter.LabelAt | app.py:274-294 | a match starts with a letter and a label separator |
| AnswerFormatter.LabelFindall | app.py:275-295 | every tuple found carries a letter |
| AnswerFormatter.FirstIndex | app.py:290 | the first occurrence of a character, or the length |
| AnswerFormatter.EnclosedLen | app.py:290-291 | a bracket match is an opening bracket, no closing one, then the closing one; none iff there is none |
| AnswerFormatter.Placeholder | app.py:288 | `__BRACKET_i__` starts with `_` |
| AnswerFormatter.ProtectPass | app.py:286-291 | the protecting pass appends the bracketed spans, in order, to what was saved |
| AnswerFormatter.RestoreBrackets | app.py:300-302 | the restore loop replaces each placeholder in turn |
| AnswerFormatter.RestoreOne | app.py:301-302 | a single placeholder is restored to its bracketed span |
| AnswerFormatter.PlaceholderSealed | app.py:288 | no letter in a placeholder is followed by a label separator |
| AnswerFormatter.LazyTotal | app.py:274 | a lazy scan whose lookahead holds at the end always ends |
| AnswerFormatter.CommaLazyTotal | app.py:274 | the comma value can always end, at the end of the line |
| AnswerFormatter.CommaMatchesLabel | app.py:274 | the comma pattern matches iff a letter is followed by a label separator and one more character |
| AnswerFormatter.NoLabelPairCons | app.py:274 | no label start anywhere, built up from the front |
| AnswerFormatter.NoLabelPairSuffix | app.py:274 | no label start in a text means none in its suffixes |
| AnswerFormatter.CommaNoneNoLabel | app.py:275-277 | when the comma strategy finds nothing the text has no label start |
| AnswerFormatter.NoLabelSpacedNone | app.py:294-295 | without a label start the spaced strategy finds nothing |
| AnswerFormatter.SealedConcat | app.py:288 | a placeholder in front of text without label starts adds none |
| AnswerFormatter.ProtectKeepsNoLabel | app.py:290-291 | protecting brackets creates no label start |
| AnswerFormatter.ConsKeepsNoLabel | app.py:290-291 | a character kept before a protected rest starts no label |
| AnswerFormatter.SpacedUnreachable | app.py:274-306 | whenever the comma strategy finds nothing, the spaced strategy finds nothing either, so its branch never produces entries |
| AnswerFormatter.Tidied | app.py:271-279 | a tidied value does not end with `,` or `、` |
| AnswerFormatter.CircledEntry | app.py:269-271 | a circled tuple gives an entry |
| AnswerFormatter.CommaEntry | app.py:278-279 | a comma tuple gives an entry with the upper-cased letter |
| AnswerFormatter.SpacedEntry | app.py:298-303 | a spaced tuple gives an entry with brackets restored |
| AnswerFormatter.CircledParts | app.py:268-271 | the loop appends one entry per circled tuple |
| AnswerFormatter.CommaParts | app.py:278-279 | the loop appends one entry per comma tuple |
| AnswerFormatter.SpacedParts | app.py:297-303 | the loop appends one entry per spaced tuple |
| AnswerFormatter.SingleLineParts | app.py:262-306 | the first strategy that finds something supplies the entries |
| AnswerFormatter.Prefixed | app.py:206 | `正解：` followed by the text |
| AnswerFormatter.Relabelled | app.py:308-311 | the answer for several blanks starts with `正解：` |
| AnswerFormatter.Relabel | app.py:207-311 | the branch for several blanks, as a method |
| AnswerFormatter.FormattedAnswer | app.py:195-311 | every return path starts with `正解：` |
| AnswerFormatter.NoBlankAnswer | app.py:199-201 | with no blank the answer is `正解：` plus the stripped answer, also when empty |
| AnswerFormatter.FormatAnswer | app.py:195-311 | the method computes the answer |
| AnswerFormatter.UnlabelledTrimmed | app.py:205 | removing the label from a trimmed text leaves it trimmed |
| AnswerFormatter.PrefixedTrimmed | app.py:197 | a prefixed trimmed text is kept by `strip()` |
| AnswerFormatter.PrefixRemoved | app.py:205 | the label it adds is exactly what the label removal takes away |
| AnswerFormatter.SingleBlankIdempotent | app.py:202-206 | formatting a single-blank answer twice gives the same answer |
| AnswerFormatter.OneBlank | app.py:202-206 | with one blank: strip, remove one leading label, prefix |
| AnswerFormatter.EntriesAt | app.py:268-303 | each strategy's loop makes one entry per tuple, in order |
| AnswerFormatter.CircledEntriesAt | app.py:268-271 | one circled entry per tuple, in order |
| AnswerFormatter.CommaEntriesAt | app.py:278-279 | one comma entry per tuple, in order |
| AnswerFormatter.SpacedEntriesAt | app.py:297-303 | one spaced entry per tuple, in order |
| AnswerFormatter.SingleLineLabelled | app.py:262-306 | every single-line entry is a letter, `. ` and a value |
| AnswerFormatter.AnswerPartsLabelled | app.py:223-306 | every entry of either parser is a letter, `. ` and a value |
| AnswerFormatter.CircledLazyStops | app.py:265 | the lazy value stops at the first place the lookahead holds |
| AnswerFormatter.CircledWordEnds | app.py:265 | inside a whitespace-free value the lookahead fails; after it, it holds |
| AnswerFormatter.CircledAtItem | app.py:265 | a written-out `①value` is one match with that value |
| AnswerFormatter.CircledTextStart | app.py:265 | a written-out list starts with its first circled number |
| AnswerFormatter.CircledRoundTrip | app.py:265-266 | `findall` reads `①v1 ②v2 …` back as the tuples it was written from |
| AnswerFormatter.CircledTextShape | app.py:226 | such a line has no newline and no trailing whitespace |
| AnswerFormatter.TidiedWord | app.py:271 | a value with nothing to strip is kept |
| AnswerFormatter.OneLineAnswer | app.py:197-228 | a trimmed one-line unlabelled answer reaches the single-line strategies unchanged |
| AnswerFormatter.RelabelledParts | app.py:308-309 | with entries the answer is `正解：` and the entries joined by `　　` |
| AnswerFormatter.CircledSingleLine | app.py:265-271 | a written-out circled list is parsed by the circled strategy |
| AnswerFormatter.CircledWords | app.py:268-271 | the i-th entry is the i-th circled number's letter and its value |
| AnswerFormatter.CircledAnswer | app.py:265-309 | `①v1 ②v2 …` becomes `正解：` + the mapped letters and values joined by `　　` |
| AnswerFormatter.CircledPair | app.py:265-309 | two circled items become two entries joined by `　　` |
| AnswerFormatter.CircledExample | app.py:265-309 | `①赤血球 ②白血球` becomes `正解：A. 赤血球　　B. 白血球` |
| AnswerFormatter.LazyStops | app.py:274-294 | a lazy scan stops at the first position where its lookahead holds |
| AnswerFormatter.LabelLazyStops | app.py:274 | the lazy letter value stops at the first place the lookahead holds |
| AnswerFormatter.CommaRestAhead | app.py:274 | the lookahead holds at `, ` and a label |
| AnswerFormatter.CommaWordEnds | app.py:274 | inside a whitespace-free value the lookahead fails; after it, it holds |
| AnswerFormatter.CommaTry | app.py:274 | after a single space the value is the whole word |
| AnswerFormatter.CommaAtItem | app.py:274 | a written-out `A. value` is one match with that letter and value |
| AnswerFormatter.CommaSkipped | app.py:275 | the scan passes over `, ` between items |
| AnswerFormatter.CommaTextStart | app.py:274 | a written-out list starts with a label |
| AnswerFormatter.CommaRoundTrip | app.py:274-275 | `findall` reads `A. v1, B. v2, …` back as the tuples it was written from |
| AnswerFormatter.NoCircledFindall | app.py:265-268 | a text without circled numbers gives the circled strategy nothing |
| AnswerFormatter.CommaTextShape | app.py:226-265 | such a line has no circled number, no newline and no trailing whitespace |
| AnswerFormatter.CommaSingleLine | app.py:265-279 | a written-out comma list is parsed by the comma strategy |
| AnswerFormatter.CommaWords | app.py:278-279 | the i-th entry is the i-th letter upper-cased and its value |
| AnswerFormatter.CommaAnswer | app.py:274-309 | `A. v1, B. v2, …` becomes `正解：` + the upper-cased letters and values joined by `　　` |
| AnswerFormatter.CommaPair | app.py:274-309 | two comma items become two entries joined by `　　` |
| AnswerFormatter.CommaExample | app.py:274-309 | `A. foo, B. bar` becomes `正解：A. foo　　B. bar` |
| Pipeline.FormattedQuestion | app.py:313-342 | the answer starts with `正解：`; with blanks the question starts with the instruction; without, it is the cleaned text: trimmed, no ideographic space, no two spaces in a row, no `，` or `．`, no doubled `、` or `。` |
| Pipeline.FormatQuestion | app.py:313-342 | the method calls each stage and computes the same triple |
| Pipeline.SameCount | app.py:316-336 | the count is that of markers after `normalize_blanks`, and the answer is formatted with it |
| Pipeline.InstructionIff | app.py:331-333 | the question is the instruction plus the rendered text iff there are blanks, and the rendered text alone iff there are none |
| Pipeline.NoBlankQuestion | app.py:331-337 | without blanks the question is the cleaned text and the answer is `正解：` plus the stripped answer |
| Pipeline.PlainQuestion | app.py:316-333 | a question with no idiom, no triple, no protected term and no marker gets count 0 and no instruction |

## Left out

- The Flask application, its two routes, request parsing and JSON output
  (app.py:6, 9, 344-358): web plumbing.
- The iteration order of the set `exclude_letters_before_cell` (app.py:86,
  89, 124, 128): it depends on hash randomisation, and the model fixes T, B,
  K, NK.
- A general regular-expression engine: only the patterns the program uses
  are modelled, each as its own scanner.
- Patterns.EmptyBracketsLen: its own contract states a bound; what it matches
  is stated, both ways, by Patterns.EmptyBracketsShape and
  Patterns.EmptyBracketsOf.
- Patterns.RepeatedLen: its own contract states a bound; what it matches is
  stated by Patterns.RepeatedShape.
- Patterns.BracketedLabelLen: its own contract states a bound; what it
  matches is stated, both ways, by Patterns.BracketedLabelShape and
  Patterns.BracketedLabelOf.
- Patterns.BlankLineLen: its own contract states a bound; what it matches is
  stated by Cleaner.BlankLineAt and Cleaner.BlankLineShape.
- Patterns.EndingLen, Patterns.StandaloneLen and Patterns.MatchLen: their own
  contracts state only bounds; what they match is stated by the lemmas about
  the passes that use them (Register.EndingWhole, Register.WordMissing,
  BlankDetector.StandaloneMatchStep).
- BlankDetector.NormalizeBlanks: that no blank idiom is left is proved
  (BlankDetector.IdiomsCleared) for the text after the loop over
  `BLANK_PATTERNS`; it is not proved that the standalone stage after it,
  whose restores put letters back, forms no idiom anew.
- BlankDetector.FixpointAround: "a protected term is never made a blank" is
  proved for a placeholder in the loop, and restoring is proved for one
  placeholder at a time; there is no single lemma over a whole text.
- AnswerFormatter.RestoreOne: the restore is proved for one saved span only.
- AnswerFormatter.CircledRoundTrip and AnswerFormatter.CommaRoundTrip: shown
  for values without whitespace, `,` or `、`, which the strategies return
  whole; values with inner spaces are not covered.
- AnswerFormatter.CircledLine, AnswerFormatter.NumberLine and
  AnswerFormatter.LetterLine: they require a line without a newline, which
  every line from `split('\n')` is.
- The multi-line parser is proved line by line (the `…LineEntry` lemmas);
  there is no round trip for a whole multi-line answer.
- The behaviour of the bracket restore's nesting inside the spaced branch is
  not analysed, because AnswerFormatter.SpacedUnreachable shows that the
  branch never produces entries.
- Pipeline.PlainQuestion: it also requires no protected term and no
  placeholder in the question, because the protect and restore passes are
  proved only around single placeholders.
- Placeholder collisions: an input already holding `{{BLANK}}`, `__TECH_`,
  `__PROTECT_` or `__BRACKET_` is modelled as it behaves; no precondition
  excludes it.
