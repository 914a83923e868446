# VectorMD sectionizer and query log, modelled in Dafny

VectorMD splits one markdown document into (heading, content) sections. It
embeds each heading and answers free-text queries by nearest-neighbour search
over the headings. Picked results can be appended to a markdown log. This
project models the deterministic string logic of `vectormd/vmd.py`:

- **`md2df`** turns the document into the table of sections. Fenced code
  blocks (`` ```…``` ``, lazy, across lines) are masked by the placeholders
  `CODE_BLOCK_i`. The masked text is split at heading lines (`^#+ .*`,
  line-anchored, delimiters kept), the pieces are stripped and blank pieces
  are dropped, the blocks are put back, and the pieces at even positions are
  paired with those at odd positions. `Sectionizer.Md2Df` is a method with
  the source's two loops. Its loop invariants tie each step to the fold
  functions `Masking.MaskFold` and `Masking.RestoreFold`.
- **The heading trim** (`^#+\s` removed) applied before embedding.
- **The selection and the log block** of `VectorMD.query`:
  - picked headings are mapped back to result positions through a
    dictionary, so a repeated heading maps to its last position;
  - each entry is `#heading (score)` followed by a blank line and the
    content;
  - the header carries the query and the time shifted by nine hours.

Python's `str` operations are written out over `seq<char>` in `strings.dfy`:
`isspace`, `strip`, `find`, `replace` for the first occurrence and for all
occurrences, `join` and `str(int)`. The regular expressions are written out
as scanners: `fences.dfy` has the DOTALL lazy fence scan and `headings.dfy`
the MULTILINE heading split.

Text before the first heading is not dropped: `md2df` keeps it as a piece
like any other, and pairing takes the pieces two by two from the first. So a
non-blank preamble takes the first heading slot.
`Sectionizer.PreambleBreaksPairing` states what follows under three
conditions: the placeholders round-trip, the preamble is not blank, and
every heading line is followed by non-blank text. Then the number of pieces
is odd and the table fails with the length-mismatch error. A non-blank
document with no heading line at all is the one-piece case of the same
lemma. A document with a non-blank preamble that breaks the third
condition, for instance one with two heading lines in a row, can leave an
even number of pieces. The table is then built with every pair shifted by
one piece. The model proves nothing about that case beyond what
`Sectionizer.Pair` states for any list of pieces.

## Model

| member | source | states |
|---|---|---|
| Strings.Strip | vectormd/vmd.py:28 | `x.strip()`: the result has no whitespace at either end, is empty exactly when `x` is all whitespace, and is the middle of `x` between the two cut points |
| Strings.StripPadded | vectormd/vmd.py:28 | stripping a stripped text padded with whitespace on both sides gives that text back |
| Strings.ReplaceFirst | vectormd/vmd.py:25 | `t.replace(pat, rep, 1)`, through `find`; its meaning is stated by `Strings.ReplaceFirstAt` and `Strings.ReplaceFirstNone` |
| Strings.ReplaceFirstAt | vectormd/vmd.py:25 | `replace(pat, rep, 1)` rewrites exactly the first occurrence and keeps the rest |
| Strings.ReplaceFirstNone | vectormd/vmd.py:25 | a text without `pat` is kept as it is |
| Strings.ReplaceFirstSkip | vectormd/vmd.py:25 | when no occurrence starts in a front part, the first replacement happens behind it |
| Strings.ReplaceAll | vectormd/vmd.py:31 | `t.replace(pat, rep)`, from left to right without overlaps; its meaning is stated by `Strings.ReplaceAllAbsent`, `Strings.ReplaceAllConcat` and `Strings.ReplaceAllStrip` |
| Strings.ReplaceAllAbsent | vectormd/vmd.py:31 | `replace(pat, rep)` leaves a text without `pat` unchanged |
| Strings.ReplaceAllConcat | vectormd/vmd.py:31 | `replace` distributes over a concatenation when no occurrence straddles the cut |
| Strings.ReplaceAllStrip | vectormd/vmd.py:28-31 | replacing a whitespace-free pattern by a text with non-blank ends commutes with `strip` |
| Strings.Join | vectormd/vmd.py:98 | `sep.join(xs)`: empty for no items, the item itself for one; `Strings.JoinSnoc` states what each further item adds |
| Strings.JoinSnoc | vectormd/vmd.py:98 | `sep.join` of one more item appends the separator and the item |
| Strings.DecimalInjective | vectormd/vmd.py:25 | `str(i)` of distinct numbers differ, so the placeholders are distinct |
| Fences.FirstBlock | vectormd/vmd.py:22 | the leftmost lazy match runs from the first fence to the next one, with no fence in between; with no match, no two fences follow each other |
| Fences.CodeBlocks | vectormd/vmd.py:22 | every match `re.findall` returns is a whole fenced block |
| Fences.RenderBlocks | vectormd/vmd.py:22 | the gaps and the blocks, in order, rebuild the text |
| Fences.SlotStart | vectormd/vmd.py:22 | in a text whose block slots are filled, the filler of every slot occurs at a position of its own |
| Fences.NoOccurrenceBlocks | vectormd/vmd.py:22 | a pattern absent from the text is absent from each block |
| Fences.RenderInjective | vectormd/vmd.py:22-31 | two texts that differ only in what stands in one block slot differ |
| Placeholders.NumberedPlaceholders | vectormd/vmd.py:25 | the i-th placeholder is `CODE_BLOCK_{i}` |
| Placeholders.Placeholder | vectormd/vmd.py:25 | `f"CODE_BLOCK_{i}"`; `Placeholders.OneIsPrefixOfTen`, `Masking.PlaceholdersPrefixFree` and `Masking.PlaceholdersNotPrefixFree` state how these texts overlap |
| Placeholders.OneIsPrefixOfTen | vectormd/vmd.py:25 | `CODE_BLOCK_1` is a prefix of `CODE_BLOCK_10` |
| Placeholders.TerminatedIncomparable | vectormd/vmd.py:25 | no terminated placeholder `CODE_BLOCK_{i}_` is a prefix of another |
| Masking.MaskStep | vectormd/vmd.py:24-25 | replacing the first occurrence of block i, once the blocks before it are masked, hits block i in its own place |
| Masking.MaskFold | vectormd/vmd.py:24-25 | the text after the first k rounds of the masking loop; `Masking.MaskFoldRender` states what it is |
| Masking.MaskFoldRender | vectormd/vmd.py:24-25 | after k rounds of the masking loop the text is the document with the first k blocks replaced by their placeholders |
| Masking.ReplaceEach | vectormd/vmd.py:31 | the list comprehension replaces in every piece and keeps the number of pieces |
| Masking.RestoreFold | vectormd/vmd.py:30-31 | the sections after the first k rounds of the restoring loop, as many as before; `Masking.RestoreFoldEach` states that each is restored on its own |
| Masking.RestoreFoldEach | vectormd/vmd.py:30-31 | the restoring loop acts on each piece on its own |
| Masking.ReplaceAllRender | vectormd/vmd.py:31 | replacing a placeholder absent from the gaps acts only on the block slots |
| Masking.RestoreRender | vectormd/vmd.py:30-31 | restoring the masked text restores each block slot, as long as every slot stays sealed against the next placeholder |
| Masking.SeamsNoStraddle | vectormd/vmd.py:27 | in pieces that meet at newlines, no newline-free placeholder straddles a cut |
| Masking.OccursInPiece | vectormd/vmd.py:27 | in pieces that meet at newlines, every occurrence of a newline-free placeholder lies whole inside one piece |
| Masking.RestoreFoldConcat | vectormd/vmd.py:27-31 | restoring the pieces of the split and joining them equals restoring the whole masked text |
| Masking.RestorePlaceholder | vectormd/vmd.py:30-31 | after k rounds a placeholder below k has become its block, provided no earlier placeholder is a prefix of it |
| Masking.RestoreAround | vectormd/vmd.py:30-31 | a placeholder that stays sealed in every round is restored apart from the texts on either side of it |
| Masking.RestoreHolding | vectormd/vmd.py:30-31 | a text that holds a placeholder which restores to its block comes back as its restored front part, the block verbatim, and its restored back part |
| Masking.PlaceholdersPrefixFree | vectormd/vmd.py:25 | up to ten numbered placeholders: none is a prefix of another |
| Masking.PlaceholdersNotPrefixFree | vectormd/vmd.py:25 | from eleven numbered placeholders on, one is a prefix of another |
| Masking.TerminatedPrefixFree | vectormd/vmd.py:25 | terminated placeholders are never prefixes of one another |
| Masking.MaskThenRestore | vectormd/vmd.py:24-31 | masking every block and then restoring leaves each block's place holding what the restoring loop made of its placeholder, provided no placeholder has a backtick or occurs in the text and every section stays sealed against the next placeholder |
| Masking.RestoreUndoesMask | vectormd/vmd.py:24-31 | when no placeholder is a prefix of another and `CODE_BLOCK_` is not in the text, restoring after masking gives back the text |
| Masking.AsWrittenRoundTrip | vectormd/vmd.py:24-31 | with at most ten blocks and no `CODE_BLOCK_` in the text, restoring inverts masking |
| Masking.TerminatedRoundTrip | vectormd/vmd.py:24-31 | with terminated placeholders, restoring inverts masking for any number of blocks |
| Headings.NextHeading | vectormd/vmd.py:27 | the first position at or after a start where `^#+ ` matches under MULTILINE |
| Headings.HeadingStartsExact | vectormd/vmd.py:27 | the split points found are exactly the places where `^#+ ` matches, from left to right |
| Headings.SplitShape | vectormd/vmd.py:27 | the split has 2h+1 pieces for h heading lines, and piece 2i+1 is the i-th heading line |
| Headings.SplitConcat | vectormd/vmd.py:27 | the pieces of the split join back into the text |
| Headings.SplitPieces | vectormd/vmd.py:27 | the split has an odd number of pieces that rebuild the text, and each odd piece is a whole heading line |
| Headings.SplitSeams | vectormd/vmd.py:27 | neighbouring pieces of the split meet at a newline |
| Headings.HeadingSplit | vectormd/vmd.py:27 | `re.split(r'(^#+ .*)', text, flags=re.MULTILINE)`; its meaning is stated by `Headings.SplitShape`, `Headings.SplitConcat` and `Headings.SplitPieces` |
| Sectionizer.KeepNonBlank | vectormd/vmd.py:28 | `[x.strip() for x in xs if x.strip()]` keeps at most as many pieces as it is given |
| Sectionizer.KeepStripped | vectormd/vmd.py:28 | every kept piece is non-empty and stripped |
| Sectionizer.KeepOne | vectormd/vmd.py:28 | a single piece is kept, stripped, exactly when it is not all whitespace |
| Sectionizer.KeepAppend | vectormd/vmd.py:28 | keeping distributes over joining two lists, so with `Sectionizer.KeepOne` the kept pieces are the stripped non-blank pieces, in order |
| Sectionizer.KeepAll | vectormd/vmd.py:28 | with no blank piece, every piece is kept, stripped, in order |
| Sectionizer.KeepAllButFirst | vectormd/vmd.py:28 | with a blank first piece and no other blank piece, the kept pieces are the others, stripped |
| Sectionizer.RestoreFoldKeep | vectormd/vmd.py:28-31 | restoring after dropping blank pieces equals dropping after restoring |
| Sectionizer.RestoreFoldStripped | vectormd/vmd.py:28-31 | restoring keeps every piece non-empty and stripped |
| Sectionizer.EveryOther | vectormd/vmd.py:33 | `xs[::2]` has ceil(n/2) items, item i being `xs[2i]` |
| Sectionizer.Pair | vectormd/vmd.py:33-39 | the table builds exactly when the number of pieces is even, row i pairs pieces 2i and 2i+1, otherwise the error holds ceil(n/2) headings and floor(n/2) contents |
| Sectionizer.Md2Df | vectormd/vmd.py:21-41 | the two loops compute the sectionizer function, and every heading and content is non-empty and stripped |
| Sectionizer.Sectionize | vectormd/vmd.py:21-41 | `md2df` as one function; `Sectionizer.Md2Df` computes it, and `Sectionizer.NumberedRebuildsDocument`, `Sectionizer.SectionsStripped` and `Sectionizer.WellFormedDocument` state what it gives |
| Sectionizer.SectionsStripped | vectormd/vmd.py:28-41 | every heading and content of the table is non-empty and stripped |
| Sectionizer.FencesNotSplit | vectormd/vmd.py:22-27 | the masked text is the document with each block's placeholder in place, and no cut of the heading split falls inside a placeholder |
| Sectionizer.PlaceholderInPiece | vectormd/vmd.py:22-27 | each block's placeholder lies whole inside one piece of the split |
| Sectionizer.BlockComesBack | vectormd/vmd.py:22-31 | when the placeholders round-trip, the piece that holds block i's placeholder comes back with block i, verbatim, in its place |
| Sectionizer.BlockInOnePiece | vectormd/vmd.py:22-31 | when the placeholders round-trip, every code block comes back whole and verbatim inside one restored piece, so a `#` line inside a block never starts a section |
| Sectionizer.PiecesRebuildDocument | vectormd/vmd.py:22-39 | when the placeholders round-trip, the restored pieces rebuild the document and the table is built from them, stripped, with blank pieces dropped |
| Sectionizer.NumberedRebuildsDocument | vectormd/vmd.py:22-39 | as above for `CODE_BLOCK_{i}` with at most ten blocks |
| Sectionizer.TerminatedRebuildsDocument | vectormd/vmd.py:22-39 | as above for the terminated placeholders, with any number of blocks |
| Sectionizer.HeadingPieceNonBlank | vectormd/vmd.py:27-31 | a heading line is never blank, before or after restoring |
| Sectionizer.WellFormedDocument | vectormd/vmd.py:27-39 | a document with a blank preamble and text after each heading gives one row per heading line, in order: the stripped heading line and the stripped text up to the next heading |
| Sectionizer.PreambleBreaksPairing | vectormd/vmd.py:27-39 | when the placeholders round-trip, the preamble is not blank and every heading is followed by non-blank text, the number of pieces is odd and the table fails |
| Collision.TenAfter | vectormd/vmd.py:30-31 | with eleven blocks, the round that restores `CODE_BLOCK_1` turns `CODE_BLOCK_10` into block 1 followed by `0`, and later rounds leave that alone |
| Collision.ElevenRestored | vectormd/vmd.py:30-31 | with eleven blocks, the placeholders restore to the blocks, except that the eleventh becomes block 1 followed by `0` |
| Collision.ElevenBlocksRender | vectormd/vmd.py:24-31 | masking and restoring a text with eleven blocks puts block 1 followed by `0` where the eleventh block was |
| Collision.ElevenBlocksCorrupt | vectormd/vmd.py:24-31 | masking and restoring a text with eleven blocks does not give back the text |
| Collision.ElevenPiecesCorrupt | vectormd/vmd.py:24-31 | with eleven blocks, the pieces `md2df` restores, put together, differ from the document |
| Query.TrimHeading | vectormd/vmd.py:74 | the result is either the heading unchanged, or what follows a leading `#` run and one whitespace character |
| Query.TrimRemovesPrefix | vectormd/vmd.py:74 | the whole `#` run and exactly one whitespace character go, and the rest is kept whatever it holds |
| Query.TrimKeeps | vectormd/vmd.py:74 | the heading is unchanged exactly when no `#` run at its start is followed by whitespace |
| Query.TrimHeadingLine | vectormd/vmd.py:74 | a heading line of the split is trimmed to the text after its `#` run and space |
| Query.ChoiceFold | vectormd/vmd.py:95 | the dictionary built from the first k headings has exactly those keys, each mapped to its last position among them |
| Query.ChoiceToIndex | vectormd/vmd.py:95 | every result heading is a key and maps to the last position that holds it |
| Query.SelectedIndexes | vectormd/vmd.py:97 | the lookups succeed exactly when every pick is a key and give the positions in the order picked; otherwise the error names the first pick that is not a key |
| Query.PicksFindResults | vectormd/vmd.py:94-97 | picks among the result headings always succeed, and each maps to a position below k that holds it |
| Query.EntryDeepens | vectormd/vmd.py:98 | an entry opens with its heading one level deeper, and the trim takes the extra `#` away with the others |
| Query.TitleDeepens | vectormd/vmd.py:98 | an entry's title is a heading line one `#` deeper, with the score after the heading's title |
| Query.Entry | vectormd/vmd.py:98 | `f'#{heading} ({score})\n\n{content}'`; its meaning is stated by `Query.EntryDeepens` |
| Query.HitHeadings | vectormd/vmd.py:94-95 | the headings of the results, one per result, in order |
| Query.EntryFor | vectormd/vmd.py:94-98 | for a pick among the result headings, the entry of a result that carries it with no later result carrying it |
| Query.Header | vectormd/vmd.py:100 | the block's first line, with the query and the stamp; `Query.LogNothingPicked` states that picking nothing logs it alone |
| Query.LogBlock | vectormd/vmd.py:97-100 | a log block is produced exactly when every pick is a result heading, and it is the header followed by the entries for the picks, in the order picked, each the entry of the last result carrying the pick, separated by blank lines |
| Query.LogNothingPicked | vectormd/vmd.py:98-100 | picking nothing logs the header alone |
| Query.LogOnePick | vectormd/vmd.py:94-100 | picking one heading logs the header followed by the entry of the last result that carries it |
| Query.LogOneMore | vectormd/vmd.py:97-100 | picking one heading more appends a blank line and the entry of the last result that carries the heading |
| Query.AddHours | vectormd/vmd.py:99 | `+ timedelta(hours=h)` gives a normalised time exactly h hours later |
| Query.LogTime | vectormd/vmd.py:99 | the logged time is normalised and exactly nine hours after UTC |
| Query.LogTimeDay | vectormd/vmd.py:99 | the shifted time stays on the same day exactly when UTC is before 15:00, and otherwise falls on the next day |
| Query.LogTimeUndone | vectormd/vmd.py:99 | shifting back by nine hours gives the UTC time again |

## Left out

- The embedding model, the FAISS index and the nearest-neighbour search (vectormd/vmd.py:77-78, 83-86, 91-92) are foreign library calls over floating-point vectors. The results reach the model as a sequence of `Query.Hit`.
- Scores are floating-point numbers printed by numpy. They are kept as the text they print as, and that printing is not modelled.
- `datetime.utcnow()` is a clock. The UTC time is a parameter, and time is counted in whole microseconds. How `str(datetime)` prints the stamp is not modelled: `Query.LogBlock` takes the printed stamp as text.
- Reading the markdown file, appending to the log file, and saving or loading the model, dataset and index are I/O (vectormd/vmd.py:55, 64-65, 71-72, 81-86, 101-102).
- The lazy-loading `model` and `ds` properties (vectormd/vmd.py:51-68) only check for files and call loaders.
- The `questionary` checkbox, the CLI parsing and the `input` prompt (vectormd/vmd.py:96, 107-133) are UI. The picked headings are a parameter of `Query.LogBlock`.
- The DataFrame branch of `query` (vectormd/vmd.py:104-105), `setup.py` and the `heading_trimmed` column of the dataset only pass values along. The trim itself is `Query.TrimHeading`.
- A pandas DataFrame is modelled as the list of its rows. The failed construction from columns of unequal length is modelled as the `LengthMismatch` error, not as a raised exception.
- Sectionizer.WellFormedDocument: the rows are stated in terms of the restored pieces of the split, not as positions in the original document.
- Collision.ElevenBlocksCorrupt: only exactly eleven blocks is worked through. For twelve or more blocks, `Masking.PlaceholdersNotPrefixFree` shows that the round-trip condition fails, but the resulting text is not computed.

## Findings

| source | as written | input that shows it | evidently intended | confidence | as-written member | corrected member |
|---|---|---|---|---|---|---|
| vectormd/vmd.py:24-31 | the placeholder `CODE_BLOCK_{i}` has no terminator, and placeholders are restored in increasing `i` with an all-occurrence replace, so `CODE_BLOCK_1` also matches the front of `CODE_BLOCK_10` | any document with exactly eleven fenced blocks and no literal `CODE_BLOCK_` text: the eleventh block comes back as the second block followed by `0` | every block comes back verbatim whatever the number of blocks, e.g. with placeholders `CODE_BLOCK_{i}_` | not executed | Collision.ElevenBlocksCorrupt | Sectionizer.TerminatedRebuildsDocument |
