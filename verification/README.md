# minigrep in Dafny

A model of the core of `minigrep`, a small grep clone written in Rust. The model covers three parts.

- **Line scanner** (`src/lib.rs`). `suche` reads a file, splits it into lines, and scans each line for a literal pattern. Each occurrence becomes a `Suchergebnis` record: 1-based line number, 1-based byte column, and a copy of the line. After each match the cursor moves past the whole match, so matches are leftmost-first and never overlap. The case-insensitive variant compares lowercased copies. It still reports offsets into, and stores, the original line.
- **Highlighter** (`faerbe_suchstring` in `src/main.rs`). It rebuilds a line as gap, coloured match, gap, … , tail. It uses the same cursor scan as the search.
- **Driver** (`main`, `zeige_ergebnisse` and `zeige_kontext` in `src/main.rs`). This part covers the read-failure exit, count mode, and the no-match message. It also lists each record with its highlighted line and a window of context lines around it.

## Modules

| file | module | contents |
|---|---|---|
| `wrappers.dfy` | `Wrappers` | `Option` |
| `text.dfy` | `Text` | bytes, 1-based positions, ASCII lowercase |
| `lines.dfy` | `LineSplit` | Rust's `str::lines` on bytes, with round trips |
| `matcher.dfy` | `Matcher` | leftmost `find` from a cursor, the non-overlapping scan, and its characterization |
| `scanner.dfy` | `Scanner` | the `Suchergebnis` record (`Match`) and the two searches with their properties |
| `highlighter.dfy` | `Highlighter` | `faerbe_suchstring` as segments, the decoration round trip, agreement with the scanner |
| `context.dfy` | `Context` | the context window of `zeige_kontext` |
| `driver.dfy` | `Driver` | the decision `main` makes and what each listed entry shows |

Modelling choices:

- **Text is bytes.** Contents, lines and patterns are `seq<byte>`. Case folding is byte-wise ASCII lowercase (`'A'..'Z'` to `'a'..'z'`), which keeps every length. This is what makes an offset found in the folded line valid in the original line (`src/main.rs:138`).
- **Decoration is abstract.** The highlighter returns a list of segments (`Plain` or `Marked`). `Render(segs, deco)` applies any decoration function to the marked ones, standing in for the green ANSI colour. `Strip` drops the decoration, and `Spans` lists where the marked pieces start.
- **Line splitting follows `str::lines`.** It splits on LF, drops a CR right before an LF, and produces no empty last line after a final LF. A CR at the very end of the contents, with no LF after it, stays in the last line, as `str::lines` keeps it.
- **File reads are inputs.** `Driver.Run` takes the main read and the context re-read as `Option<Bytes>`, where `None` means the read failed.

## Model

| member | source | states |
|---|---|---|
| LineSplit.LinesUnlines | src/lib.rs:53 | LF-terminated lines without a trailing CR split back into exactly those lines, with no empty line after the last LF |
| LineSplit.LinesUnlinesCRLF | src/lib.rs:53 | CRLF-terminated lines split back into exactly those lines: the CR before each LF is dropped |
| LineSplit.LinesUnterminatedLast | src/lib.rs:53 | a last line with no terminator is still returned as a line |
| LineSplit.LinesUnlinesMixed | src/lib.rs:53 | any mix of LF- and CRLF-terminated lines, followed by an unterminated last line or by nothing, splits back into exactly those lines; a line ending in CR before a lone LF is excluded because its CR would be read as part of a CRLF |
| LineSplit.LinesCRLFUnterminated | src/lib.rs:53 | CRLF-terminated lines followed by a last line with no terminator split back into those lines plus the last one |
| LineSplit.LinesLower | src/lib.rs:85-87 | splitting the lowercased contents gives the lowercased lines, so the insensitive search sees the same lines |
| Matcher.FindLeftmost | src/lib.rs:58 | `find` from the cursor returns the leftmost occurrence at or after it; `None` means no occurrence starts at or after the cursor |
| Matcher.OffsetsGreedy | src/lib.rs:57-70 | the scan's offsets are leftmost-first: each is the first occurrence after the previous match's end, and none remains after the last |
| Matcher.OffsetsCharacterized | src/lib.rs:57-70 | any offset list with the leftmost-first, resume-after-match property equals the scan's result, in both directions |
| Matcher.GreedySeparated | src/lib.rs:69 | offsets of the scan lie inside the text, each is an occurrence, and consecutive ones are at least the pattern length apart |
| Matcher.OffsetsCountBound | src/lib.rs:69 | a line of length L holds at most L / \|P\| matches |
| Matcher.ScanLine | src/lib.rs:57-70 | the `while let Some(..) = ..find(..)` loop collects exactly the scan's offsets |
| Scanner.Search | src/lib.rs:33-43 | empty contents produce no record |
| Scanner.SearchWellFormed | src/lib.rs:53-70 | every record names an existing line, stores that line, has its match inside it, and matches there; records are in strictly increasing (line, column) order; records on one line are at least \|P\| columns apart |
| Scanner.SensitiveRecordText | src/lib.rs:53-66 | a case-sensitive record names an existing line, stores it, and that line holds P itself at the record's column |
| Scanner.InsensitiveRecordText | src/lib.rs:85-99 | a case-insensitive record stores the original line, whose lowercased form holds lowercased P at the record's column |
| Scanner.SearchColumns | src/lib.rs:53-70 | the columns recorded for line n, minus one, are exactly the scan of line n |
| Scanner.SearchLineColumns | src/lib.rs:90-103 | the columns of each line form a leftmost-first scan with no occurrence missed; a line number past the end has no records |
| Scanner.SearchLineCount | src/lib.rs:53-69 | a line holds at most \|line\| / \|P\| records; a line shorter than P, such as an empty line, holds none |
| Scanner.InsensitiveIsSensitiveOnFolded | src/lib.rs:77-107 | the case-insensitive search has the same line numbers and columns as the case-sensitive search of the lowercased contents for the lowercased pattern; only the stored line differs, which keeps its case |
| Scanner.SearchLoop | src/lib.rs:50-73 | the loop over `lines().enumerate()` with the inner scan builds exactly the search's records |
| Highlighter.StripHighlight | src/main.rs:122-178 | removing the decoration gives back the input line, in both branches |
| Highlighter.ColorizedIdentity | src/main.rs:122-178 | with the identity decoration the highlighter returns the line unchanged |
| Highlighter.HighlightSpans | src/main.rs:131-145 | the decorated pieces sit exactly at the scanner's offsets for the same line, pattern and fold flag, and each is the original slice of the line there, not the lowercased text or the pattern |
| Highlighter.HighlightNoMatch | src/main.rs:131-150 | a line is returned as one undecorated piece iff the pattern does not occur in it |
| Highlighter.OffsetHighlighted | src/main.rs:131-145 | every offset the scan finds in a line lies inside the line and is decorated there with the line's own bytes |
| Highlighter.RecordScanned | src/lib.rs:58-60 | a record's column minus one is one of the offsets the scan finds in the record's own line |
| Highlighter.RecordHighlighted | src/main.rs:89-97 | every record the search reports is a decorated piece of its printed line, at its column, holding the line's own bytes |
| Highlighter.Colorize | src/main.rs:153-176 | the loop with `last_end` and `pos`, with every slice in bounds, produces exactly the rendered segments |
| Context.RangeMembers | src/main.rs:201-205 | a `for i in lo..hi` loop guarded by `i < len` lists exactly the indices in `[lo, hi)` below `len` |
| Context.WindowMembers | src/main.rs:194-216 | the listed 0-based indices are exactly those within k of the match line, inside the file, other than the match line |
| Context.WindowIncreasing | src/main.rs:201-216 | the listed indices increase, each names a line of the file, and none is the match line |
| Context.ContextBlockLines | src/main.rs:186-216 | line number m is listed iff it is within k of the match line, at most the line count, and not the match line; each listed line shows the text of that line; numbers increase |
| Context.ListRange | src/main.rs:201-216 | one guarded `for` loop lists its range's lines with their 1-based numbers |
| Context.ContextLoop | src/main.rs:190-216 | the two loops together list exactly the window |
| Driver.Run | src/main.rs:48-75 | a failed read is an error with exit status 1; count mode reports the number of records; the no-match message appears iff count mode is off and there are no records; otherwise the listing has one entry per record, in record order, with the record's line and column |
| Driver.EntryShowsRecord | src/main.rs:89-110 | the entry built for a record whose column is a decorated span shows that record: same line and column, a highlighted line stripping back to the record's line, and a context block present iff the window is positive and the re-read succeeds, never listing the match line |
| Driver.ListingShowsRecords | src/main.rs:79-116 | each listed entry carries its record's line and column; its highlighted line strips back to the record's line and decorates the record's column; its context block appears iff the window is positive and the re-read succeeds, and never lists the match line |

## Left out

- File reads (`src/lib.rs:35` and the re-read at `src/main.rs:187`) are I/O. They are parameters of `Driver.Run`. `None` means a failed read, and the error value itself is not modelled. `fs::read_to_string` also fails when the file is not valid UTF-8; `None` stands for that case too. Contents are bytes here, so `Some(contents)` with non-UTF-8 contents produces records that have no counterpart in the program, which would exit with status 1 or drop the context block instead.
- The context file is re-read once per listed record. The model passes one re-read result, independent of the main read, shared by all records. A file that changes between the main read and the re-read is covered; a file that changes between two per-record re-reads is not.
- Argument parsing with clap (`src/main.rs:7-35`) belongs to a foreign library. `Driver.Config` holds its result, with an absent `-C` as 0. The unused `zeilennummern_anzeigen` flag is dead configuration and is not modelled.
- Colours, emoji, banners and the exact `println!` layout (`src/main.rs:82-118`, `src/main.rs:192`, `src/main.rs:203`, `src/main.rs:214`) are cosmetic. The model keeps what is printed as data: segments, line and column numbers, and context lines with their numbers.
- `process::exit` and the stderr message (`src/main.rs:68-74`) are process plumbing. They are reduced to `Outcome.ReadFailed` and `Driver.ExitCode`.
- Rust's Unicode `to_lowercase` (`src/lib.rs:81`, `src/lib.rs:87`, `src/main.rs:125-126`) is replaced by ASCII lowercase. Unicode folding can change byte lengths, after which the original line's offsets would no longer match the folded line's. String slicing that panics off a UTF-8 character boundary does not arise on bytes.
- An empty pattern is excluded by a precondition. The code does not reject it: `find("")` returns `Some(0)`, the cursor never advances (`src/lib.rs:69`), and the loop does not end.
- Integer widths: `usize` arithmetic such as `aktuelle_zeile + kontextzeilen + 1` (`src/main.rs:209`) is unbounded here, so a wrap-around with a huge `-C` value is not modelled.
- Scanner.SearchSensitive and Scanner.SearchInsensitive state only the empty-contents case in their own contracts. Soundness, ordering and non-overlap are stated for both through `Scanner.Search` in `Scanner.SearchWellFormed`.
