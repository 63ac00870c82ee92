# codch editor support: path tokens, document links and path completion

This project models the logic in `extension.js` of the codch editor extension. The extension adds two things to `.codch` documents:

- **clickable links.** A block headed `inspiration:`, `context:` or `output:` holds file paths, one per line. The link provider finds every such block with one global multiline regular expression. It trims the block and splits it on newlines. It then turns each line into a link record: a range of character offsets and a target path. The target is the line itself when the line is absolute, and otherwise the line joined to the document's directory. A running offset, `lastProcessdLineEndIndex`, places the ranges.
- **path completion.** The completion provider takes the line text before the cursor. The last space-separated segment of it is the path being typed, if that segment is a file path. The provider resolves this path against the document's directory. It lists the path itself when the path ends in `/`, and otherwise the path's parent directory. Each entry whose status can be read becomes a completion item. A directory inserts its name followed by `/` and re-triggers completion.

Modules:

- `Wrappers`: the `Option` datatype. It stands for `null` / `undefined` and for collaborator calls that throw.
- `JsString`: the JavaScript string built-ins the code calls: the `\s` class, `trim`, `split`, `indexOf`, `substr`/`substring` and `endsWith`.
- `NodePath`: `path.isAbsolute`, `path.dirname` and `path.join` for POSIX paths, without normalisation.
- `PathToken`: `isFilePath`, `extractFilePathFromLine`, and resolving a token against the document's directory.
- `DocumentLinks`: the pattern of extension.js:33, written as explicit position-by-position functions (`Exec` is one `exec` call). It also holds the link provider as an imperative method: a `while` loop over the matches, a `for` loop over the lines of a block, and the running offset with its invariants.
- `LinkFindings`: where the ranges land in the text, as written and as corrected (see "## Findings").
- `Completion`: the completion provider as pure functions. `fs.readdirSync` is an oracle `string -> Option<seq<string>>` and `fs.statSync(..).isDirectory()` is an oracle `string -> Option<bool>`. In both, `None` means that the call throws.

What the code does, and the model with it:

- Only colon headers (`inspiration:`, `context:`, `output:`) start a block. A block is a run of lines that each end in `\n`, the last one included. It stops before the first empty line, or at the end of a text that ends in a newline. When the last line has no newline, or the lines end in `\r\n` (`.` stops at `\r`), the header matches nothing and gives no links.
- The white space after a header's colon may run over several lines. The greedy `\s*` gives it back one character at a time, so the block starts after the last newline of that run that a block can follow.
- Every line of a trimmed block becomes a link, whatever it holds. Its range comes from the running offset alone.
- Completion is offered on any line of the document.
- The link ranges are shifted by one from the lines they stand for (see "## Findings").
- A block that trims to nothing gives a link with an empty range. VS Code's `DocumentLink` constructor rejects an empty range, so the `catch` of extension.js:54-57 then returns no links for the whole document.

## Model

| member | source | states |
|---|---|---|
| PathToken.IsFilePath | extension.js:5-7 | a file path is a non-empty string over `[a-zA-Z0-9_\-./]`, so it has no space, backslash or newline |
| PathToken.LastSegmentIsTextAfterLastSpace | extension.js:9 | `line.split(' ').reverse()[0]` is the suffix of the line after its last space (all of the line when there is none), and holds no space |
| PathToken.TextAfterLastSpaceIsUnique | extension.js:9 | any space-free suffix that follows a space or is the whole line is that last segment |
| PathToken.ExtractFilePathFromLine | extension.js:8-14 | a non-null result is a space-free file-path suffix of the line that follows its last space; an empty line or a line ending in a space gives null |
| PathToken.ExtractFilePathCharacterised | extension.js:8-14 | for the text after the last space, the result is that text exactly when it is a file path, and null exactly when it is not |
| PathToken.ResolvedTarget | extension.js:40 | a target equals its token exactly when the token is absolute; otherwise the document's directory comes first; the token always ends the target; the target is absolute when the document path is |
| NodePath.DirnameIsParent | extension.js:40 | `dirname` is `.` for a bare name, the root for an entry of the root, and otherwise the part before the last separator |
| NodePath.JoinKeepsBothSides | extension.js:76 | `join(a, b)` starts with `a` and ends with `b`, with one separator between them when neither side is empty |
| JsString.TrimRemovesOnlySpace | extension.js:36 | `trim()` yields a slice of the input that neither starts nor ends with white space; everything removed before and after it is white space |
| JsString.SplitPiecesLackSeparator | extension.js:37 | no piece of `split('\n')` holds a newline |
| JsString.SplitJoin | extension.js:37 | joining the pieces of a split with the separator gives the string back |
| JsString.SplitLast | extension.js:9 | the last piece of a split is the text after the last separator |
| JsString.IndexOfIsFirstOccurrence | extension.js:38 | `indexOf` is -1 exactly when the needle occurs nowhere, and otherwise the first position where it occurs |
| JsString.IndexOfTrimmedTail | extension.js:38 | the trimmed tail of a newline-ended string is found no later than where it sits, with room for one character after it |
| DocumentLinks.LabelEndMatchesALabel | extension.js:33 | the header alternation matches exactly when one of `inspiration`, `context`, `output` and a colon stands there, and ends past the colon |
| DocumentLinks.BlankToNewlineInRun | extension.js:33 | `\s*\n` after the colon can end exactly just past a newline inside the run of white space (newlines included) that follows the colon |
| DocumentLinks.HeaderBlockTakesLastFit | extension.js:33 | both directions: giving back `\s*` one character at a time settles on the last newline of the run after which a block follows, with that block; when none does, the header does not match |
| DocumentLinks.HeaderBlockBacktracks | extension.js:33 | both directions: the header and block found from the colon are exactly the ones the pattern settles on: `\s*\n` ends at the block's start, the lazy block follows, and no later end of `\s*\n` is followed by a block |
| DocumentLinks.RunEndIsFirstTerminator | extension.js:33 | `.*` stops at the first line terminator |
| DocumentLinks.BlockEndIsLazy | extension.js:33 | both directions: the block ends at a position exactly when it is made of newline-ended lines and stops at the first newline followed by an empty line or the end of the text; with no such stop there is no block |
| DocumentLinks.MatchAt | extension.js:33 | a match starts at a line start, its block follows its header, and it ends with a newline inside the text |
| DocumentLinks.MatchAtCharacterised | extension.js:33 | both directions: the pattern matches at a position with a given block exactly when that position starts a line with a label and its colon, and the header's white space and the lazy block settle on that block |
| DocumentLinks.LabelEndOfLabel | extension.js:33 | the alternation `(inspiration\|context\|output):` matching at a position ends just past that label's colon, whichever label it is: the three labels start with different letters, so the alternation cannot pick another one |
| DocumentLinks.Exec | extension.js:35 | `exec` from `lastIndex` returns a well-formed match at or after `lastIndex`, or null |
| DocumentLinks.ExecReturnsMatchAt | extension.js:35 | the match `exec` returns is the pattern's match at the index it reports |
| DocumentLinks.ExecIsLeftmost | extension.js:35 | `exec` returns the leftmost match: no earlier position matches |
| DocumentLinks.ExecNullMeansNoMatch | extension.js:35 | `exec` returns null only when no position from `lastIndex` on matches |
| DocumentLinks.NoMatchMeansExecNull | extension.js:35 | the converse: when no position from `lastIndex` on matches, `exec` returns null |
| DocumentLinks.ProvideDocumentLinks | extension.js:29-58 | the `while` loop over matches returns the records of every block in the order `exec` finds them, ordered and inside the text; when a record's range would be empty, the constructor throws and the result is `[]` |
| DocumentLinks.NonEmptyRangesConcat | extension.js:35-57 | a list of records has no empty range exactly when each of its parts has none, so one empty range anywhere empties the whole result |
| DocumentLinks.BlankBlockEmptiesResult | extension.js:36-57 | a first block of only white space trims to one empty line whose range is empty, so the document gets no links at all |
| DocumentLinks.GivesBackMatch | extension.js:33 | for `context:\n\n\nfoo\n`, `\s*` takes the three newlines and gives the last one back, so the block is `foo\n` |
| DocumentLinks.GivesBackOneLink | extension.js:29-58 | that document gets exactly one link, at `[12, 15)` |
| DocumentLinks.BlankBlockExample | extension.js:33-57 | for `context:\n \n\nx` no block follows the later newlines, so the block is the blank line ` \n`, and the document gets no links |
| DocumentLinks.NoFinalNewlineExample | extension.js:33-57 | for `context:\na.txt\nb.txt`, whose last line has no newline, `exec` finds nothing and the document gets no links |
| DocumentLinks.CrlfExample | extension.js:33-57 | for `context:\r\na.txt\r\n`, whose lines end in `\r\n`, `exec` finds nothing and the document gets no links |
| DocumentLinks.PushBlockLinks | extension.js:39-49 | the `for` loop appends exactly the records of the block's lines, with the running offset advanced past each line plus one; it throws exactly when one of those ranges is empty |
| DocumentLinks.BlockLinksSnoc | extension.js:41-43 | one more line adds one record placed one past the running offset, which has moved by every earlier line's length plus one |
| DocumentLinks.BlockLinkOffsets | extension.js:38-43 | one record per line in line order: start0 = cursor + 1, end = start + line length, next start = previous end + 1, target = the line resolved |
| DocumentLinks.BlockLinksOrdered | extension.js:38-43 | within a block the ranges do not overlap, increase strictly, and lie between the cursor and the cursor plus the block's span |
| DocumentLinks.SplitSpan | extension.js:37 | the lines of a split take the string's length plus one once each gets its newline back |
| DocumentLinks.BlockOffsetBound | extension.js:38 | `match[0].indexOf(pathsBlock)` is found, and no later than where the block ends minus one |
| DocumentLinks.MatchLinksWithin | extension.js:36-43 | the records of one match are ordered and lie inside that match |
| DocumentLinks.LinksFromStep | extension.js:35-49 | a successful `exec` contributes its block's records ahead of all later ones |
| DocumentLinks.LinksFromNone | extension.js:35 | a null `exec` ends the records |
| DocumentLinks.LinksFromOrdered | extension.js:35-50 | the records of all matches from `lastIndex` on are ordered and lie between `lastIndex` and the end of the text |
| DocumentLinks.DocumentLinksInDocumentOrder | extension.js:35-50 | records of successive blocks come in document order, inside the text |
| LinkFindings.ShiftedRangeExample | extension.js:38-42 | for `context:\na.txt\n` the code reports the range [10, 15), which holds `.txt\n`; the line is at [9, 14) |
| LinkFindings.HeaderOccurrenceExample | extension.js:38 | for `output:\noutput\n` the code's `indexOf` finds the block text in the header, so it reports [1, 7), which holds `utput:` |
| LinkFindings.AsWrittenCursorNotAfterBlock | extension.js:38 | the code's running offset never starts after the trimmed block |
| LinkFindings.AsWrittenShiftedByOne | extension.js:38-42 | when `indexOf` finds the block itself, each range as written is its corrected range moved one to the right, with the same target |
| LinkFindings.AsWrittenRangesDoNotResolve | extension.js:38-42 | as written, the text a range covers need not resolve to its target |
| LinkFindings.TrueBlockStart | extension.js:36-38 | the offset of the trimmed block lies inside the block, with room for the trimmed text |
| LinkFindings.CorrectedLinksCoverLines | extension.js:36-43 | corrected: each range lies inside its match and covers exactly its line |
| LinkFindings.CorrectedMatchLinksResolve | extension.js:36-43 | corrected: the records of one match are ordered, inside the match, and each range's text resolves to its target |
| LinkFindings.CorrectedLinksFromResolve | extension.js:35-50 | corrected: over the whole document the records are in document order, inside the text, and each range's text resolves to its target |
| Completion.LinePrefix | extension.js:64-65 | the text before the cursor is the line's first `character` characters, or the whole line when it is shorter |
| Completion.TargetDirectoryIsParent | extension.js:71 | the listed directory is the path when it ends in `/`; otherwise, for an absolute path, it is the absolute part before the name being typed |
| Completion.EntryItem | extension.js:75-87 | an entry gives an item exactly when its status can be read, and the item agrees with that status |
| Completion.Entries | extension.js:74-88 | every item names a listed entry whose status can be read; a directory inserts `name/` and re-triggers completion, a file sets neither |
| Completion.EntriesKeepStattedNames | extension.js:74-88 | no entry whose status can be read is dropped |
| Completion.EntriesConcat | extension.js:74-88 | items follow the listing order: the items of two listings in a row are the first's followed by the second's |
| Completion.EntriesAllStatted | extension.js:74-88 | when every status can be read there is one item per entry, in listing order |
| Completion.EntriesNoneStatted | extension.js:84-88 | when every status lookup throws there are no items |
| Completion.CompletionDirectory | extension.js:64-71 | there is a directory to list exactly when a file path ends the text before the cursor |
| Completion.ProvideCompletionItems | extension.js:62-93 | `undefined` exactly when no path ends the text before the cursor; no items when the listing throws; otherwise the items of the listing's entries |
| Completion.CompletionIgnoresTextAfterCursor | extension.js:64-65 | the text after the cursor never changes the result |
| Completion.CompletionAfterSpaceIsUndefined | extension.js:66-69 | with the cursor at the line start or after a space the result is `undefined` |
| Completion.CompletionListsTypedDirectory | extension.js:70-71 | a relative token ending in `/` lists that token under the document's directory |
| Completion.FolderAndFileExample | extension.js:78-82 | a folder `child` inserts `child/` and re-triggers completion; a file `note.md` sets neither |

## Left out

- `activate` and the registration of the two providers (extension.js:16-26) are host glue. So is the Windows `\` trigger character.
- VS Code's `Range`, `DocumentLink`, `Uri.file`, `positionAt`, `lineAt` and `CompletionItem` are left out. Ranges are plain character offsets. The cursor line's text and the cursor's column are inputs.
- `fs.readdirSync` and `fs.statSync` are oracle parameters. The model has no file system.
- `path.join` and `path.dirname` are simple POSIX functions without Node's normalisation of `.`, `..` and repeated separators. `path.isAbsolute` is "starts with `/`". Platform separators are left out.
- DocumentLinks.ProvideDocumentLinks: the `catch` branch (extension.js:54-57) is modelled for the one throw the modelled computation can reach: `DocumentLink` rejecting an empty range. Other host failures, and the `console.error` and `console.warn` logging, are left out.
- Completion.ProvideCompletionItems: the outer `catch` is modelled only for `readdirSync` throwing (the result is `[]`). No other modelled step throws.
- Offsets are counted in Unicode code points, while JavaScript's `length`, `indexOf`, `match.index`, `positionAt` and `position.character` count UTF-16 code units. The model agrees with the code only on text without characters outside the Basic Multilingual Plane. With such a character before a block, every later offset differs, and the `+1` of extension.js:41 can land inside a surrogate pair.
- A completion item records the re-trigger command as a flag, not as the command object.
- DocumentLinks.ProvideDocumentLinks keeps the ranges exactly as the code computes them. The corrected records (`LinkFindings.CorrectedLinksFrom`) are defined beside it, so that both can be compared.

## Findings

| source | as written | input that shows it | evidently intended | confidence | as-written member | corrected member |
|---|---|---|---|---|---|---|
| extension.js:38-42 | the running offset starts at the trimmed block, and the first range starts one past it, so every range sits one character to the right of its line | `context:\na.txt\n`: the range is [10, 15), holding `.txt\n` | each range covers its line: the running offset starts one before the block | not executed | LinkFindings.ShiftedRangeExample | LinkFindings.CorrectedLinksFromResolve |
| extension.js:38 | `match[0].indexOf(pathsBlock)` finds the first occurrence of the block's text, which can lie in the header | `output:\noutput\n`: the range is [1, 7), holding `utput:` | the offset of the block itself: its start plus its leading white space | not executed | LinkFindings.HeaderOccurrenceExample | LinkFindings.CorrectedMatchLinksResolve |
