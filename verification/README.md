# A verified model of yas

yas keeps terminals on a server and shows them in browsers and command-line tools. This project
models the parts where its correctness is least obvious and proves what they promise.

- **Terminal driver.** `Scrollback` follows the scroll probe that gives every terminal line an
  absolute sequence number although the driver never sees a line scroll away. The emulator's grid is
  modelled by the contract the driver's comments state, and each line carries the index it was born
  with, so "the number is right" does not mention the driver's counters. `GridRows`, `PagedText` and
  `SeqReader` are the two text readers over those numbers, `DriverText` joins both halves.
  `ModeTracker` is the byte-at-a-time mode parser, `LinkCollector` the hyperlink table, `CellCodec`
  the 12-byte cell encoder, `FrameBuilder` the frame they build together.
- **Browser renderer.** `RendererState`, `SnapshotFormat`, `Snapshot`, `SnapshotState`,
  `SnapshotLayout` and `SnapshotDecoder` are the state, the wire format and its decoder; `LinkSpans`
  the search for the extent of a link; `GlyphAtlas` the shelf allocator for glyphs and `GlyphSizes`
  what sizes it hands out over a run. `BrowserEncoder` is the page's encoder that feeds the decoder.
- **Wire schema.** `Registry`, `FamilyLimits`, `FrameHeader`, `Compatibility` and
  `CompatibilityFields` are the schema validators, what they make true of the generated code, and
  the compatibility relation, as the checker's tables and field by field. `Utf8` is the extension
  library's UTF-8 codec against section 4 of RFC 3629. `Bytes` holds the little-endian integers,
  `Common` what several modules share.
- **Command line.** `GrepContext` merges and prints context windows; `ForwardSpec` parses and prints
  port forwards.

Code that works by mutation is modelled by classes and methods, proved against specification
functions; the theorems are about those functions. Where an unconditional claim would be false of
the code, the model keeps the code's behaviour and the theorem is an equivalence with a condition on
the input, usually beside a concrete failing case. Beside the codecs, tables and lists of constants
stand laws in literal numbers and names (`…InWords`, `…InNumbers`, `…Layout`, `…History`), stated
without the functions that compute them.

Results worth knowing about the code itself:

- Sequence numbers stay true over a run exactly when every event in it is lawful
  (`Scrollback.RunKeepsStep`). Unlawful are: chunks that scroll more than the probe can count before
  it meets the scrollback limit, chunks that cross to the alternate screen and scroll the primary
  grid before it has history, and resizes that move rows the counters do not see. Behind the
  alternate screen a resize can be followed exactly when the motion owed is one the remaining
  history can show (`Scrollback.ResizeBehindAlternateScreen`); growing further leaves the counter
  too high whatever the emulator does (`Scrollback.GrowBehindAlternateScreen`).
- `seq_text` with `end_seq` 0 still returns row 0 in exactly one situation
  (`SeqReader.EndIsExclusiveUnlessZero`). The comment on its result promises that resuming at a
  returned cursor returns exactly what was appended; it does so if and only if no blank before the
  cursor was trimmed from under later text (`SeqReader.ResumingIsExact`, with an input where it
  fails in `SeqReader.ResumingCanLoseABlank`).
- A snapshot that is accepted can still hold a cell whose text cannot be read
  (`SnapshotState.AcceptedCanFailToRead`); the driver's encoder never produces one
  (`CellCodec.CellRoundTrip`).
- The page's encoder writes a payload the renderer rejects exactly when the grid has more cells than
  a frame may have or an overflow text is cut inside a character (`BrowserEncoder.AcceptedExactly`),
  and drops a hyperlink that spans more than 65535 cells (`BrowserEncoder.LongRunsLoseTheirLink`).
- A cell on a frame and in read text is the same except for combining marks on a blank
  (`CellCodec.FrameAndTextAgree`), and a named colour is shown as what it stands for unless it is
  another plane's role (`CellCodec.NamedColourShown`).
- The joined key of a codec entry identifies its two key fields exactly when neither holds a slash
  (`Compatibility.JoinedKeyIdentifies`); a schema with two entries that collide is compatible with
  nothing, itself included (`Compatibility.SlashedCodecsAreRejected`).
- A failed atlas request leaves the shelf settled unless it fits the canvas in height and is exactly
  one short of it in width; such a request moves the shelf down each time
  (`GlyphAtlas.FailuresSettleUnlessWide`), and a shelf moved far enough hands out slots off the
  canvas (`GlyphAtlas.DriftedShelfMisplaces`).
- The atlas measures the overhang of a font only when the cell size changes: a request that differs
  in nothing else gets the old padding (`GlyphSizes.AnswerIsSizedExactly`, with an input in
  `GlyphSizes.StaleOverhang`).
- `get_text_range` casts its distances to signed 32-bit lines: a start too far from the bottom reads
  nothing and an end too far reads everything. It agrees with `seq_text` exactly where the distances
  fit (`SeqReader.ReadersAgreeExactly`).
- A forward specification survives printing and parsing exactly when its addresses do not open a
  bracket, close one early, or, for TCP, hold a slash (`ForwardSpec.RoundTripExactly`).

## Model

| member | source | states |
|---|---|---|
| `Scrollback.TerminalDriver.constructor` | crates/alacritty-driver/src/lib.rs:470-496 | a new driver is the abstract driver at rest, in step, with no history |
| `Scrollback.TerminalDriver.ArmScrollProbe` | crates/alacritty-driver/src/lib.rs:523-533 | on a valid grid the display offset becomes the probe clamped to the history, nothing behind the alternate screen moves, and lines and counters are untouched |
| `Scrollback.TerminalDriver.ReadScrollProbe` | crates/alacritty-driver/src/lib.rs:535-565 | neither counter falls; the line counter gains what the scroll counter gains, or the growth of the history if that is more and no screen was crossed |
| `Scrollback.TerminalDriver.Process` | crates/alacritty-driver/src/lib.rs:498-517 | one chunk, with the mode tracker's flag before and after it, moves the abstract driver by one output event and keeps it in step if and only if the chunk is lawful |
| `Scrollback.TerminalDriver.Resize` | crates/alacritty-driver/src/lib.rs:576-608 | one height change moves the abstract driver by one resize event |
| `Scrollback.ApplyAllEffect` | crates/alacritty-driver/src/lib.rs:406-421 | a whole chunk moves the viewport by its primary scrolls, with history and offset saturating at the limit |
| `Scrollback.ProcessKeepsStep` | crates/alacritty-driver/src/lib.rs:498-565 | a chunk keeps the counter equal to the true index of the viewport top if and only if the chunk is lawful, whatever the tracker says about crossing |
| `Scrollback.WrongTracker` | crates/alacritty-driver/src/lib.rs:498-565 | when a tracker that is wrong about crossing does harm: never on a chunk that ends on the alternate screen, on the primary screen only where growth alone sees the motion, on a return unless what is owed is the whole history |
| `Scrollback.MissedReturn` | crates/alacritty-driver/src/lib.rs:540-565 | a return the tracker misses, with nothing scrolled, is followed if and only if there is no history |
| `Scrollback.ResizeKeepsStep` | crates/alacritty-driver/src/lib.rs:576-608 | a resize keeps it if and only if the resize is lawful, given where the emulator leaves its display offset |
| `Scrollback.ResizeBehindAlternateScreen` | crates/alacritty-driver/src/lib.rs:576-608 | behind the alternate screen some resulting offset makes a resize lawful if and only if the motion owed lies between 0 and what the history left can show |
| `Scrollback.GrowCanBeFollowed` | crates/alacritty-driver/src/lib.rs:576-608 | growing there can be followed if and only if it pulls back no more rows than the parked offset shows as scrolled |
| `Scrollback.RunKeepsStep` | crates/alacritty-driver/src/lib.rs:498-608 | a run of any length keeps the counter in step at every point if and only if every event in it is lawful |
| `Scrollback.LawfulRunsNumberLinesTruly` | crates/alacritty-driver/src/lib.rs:498-608 | over every lawful run from creation: each retained line is read under its birth index, the counter is the viewport top, history never exceeds it, the oldest sequence is the oldest retained line |
| `Scrollback.InStepReadsTrueIndex` | crates/alacritty-driver/src/lib.rs:855-871 | in step, sequence to row conversion finds the line with that birth index |
| `Scrollback.SequenceNamesSameText` | docs/design/term-journal.md:68-99 | a sequence number read before and after a lawful run names the same row contents while the line is retained and unwritten |
| `Scrollback.CountedMotion` | crates/alacritty-driver/src/lib.rs:540-565 | exactly how much motion is counted for a chunk on the primary screen, lawful or not |
| `Scrollback.CrossingBeforeHistoryLosesMotion` | crates/alacritty-driver/src/lib.rs:540-565 | a first chunk that scrolls and then enters the alternate screen leaves the counter behind by that motion |
| `Scrollback.GrowBehindAlternateScreen` | crates/alacritty-driver/src/lib.rs:576-608 | growing further than that leaves the counter too high, whatever motion was owed and whatever offset the emulator leaves |
| `Scrollback.ParkedViewFollows` | crates/alacritty-driver/src/lib.rs:1188-1204 | the probe count is the true motion exactly for chunks shorter than the scrollback, and a client adding it to its offset keeps seeing the same lines except evicted ones |
| `Scrollback.FrameRows` | crates/alacritty-driver/src/lib.rs:1188-1204 | at the bottom a frame shows the viewport; scrolled up, its first rows are the last lines of the history and the viewport follows below them |
| `DriverText.ReadsTheDriversLine` | crates/alacritty-driver/src/lib.rs:855-871 | the reader's row for a sequence number is the driver's line of that index |
| `DriverText.RangeReadsTheSame` | docs/design/term-journal.md:68-99 | a sequence range reads the same page before and after any lawful run that leaves its lines alone |
| `GridRows.ReadRow` | crates/alacritty-driver/src/lib.rs:784-805 | the cell loop yields the row's text: spacers skipped, NUL as space, marks kept, trailing blanks trimmed unless soft-wrapped |
| `GridRows.RenderInTwoParts` | crates/alacritty-driver/src/lib.rs:784-805 | rendering a row in two parts loses exactly the blanks that end the first part, unless nothing follows |
| `GridRows.TrimEndIs` | crates/alacritty-driver/src/lib.rs:784-805 | trimming cuts off blanks only, and all of them |
| `GridRows.WhiteSpaceCodes` | crates/alacritty-driver/src/lib.rs:784-805 | the blanks are exactly the 25 code points with the White_Space property |
| `PagedText.FitIsGreedy` | crates/alacritty-driver/src/lib.rs:938-965 | a page is the longest run of rows within the cap, or the first row alone |
| `PagedText.CutLosesNothing` | crates/alacritty-driver/src/lib.rs:880-966 | cutting rows into pages under any caps loses and repeats none, and the pages joined are the whole text |
| `PagedText.TrailIsJoin` | crates/alacritty-driver/src/lib.rs:807-853 | newlines after rows and newlines before rows make the same text |
| `SeqReader.SeqText` | crates/alacritty-driver/src/lib.rs:880-966 | clamping, paging and cursor computation give the specified page |
| `SeqReader.ReadRows` | crates/alacritty-driver/src/lib.rs:938-965 | the row loop stops exactly where the greedy fit does |
| `SeqReader.GetTextRange` | crates/alacritty-driver/src/lib.rs:807-853 | the second reader gives the text of its clamped range, distances cast to signed 32-bit lines as in the source; the rows below say what that text is |
| `SeqReader.RangeRows` | crates/alacritty-driver/src/lib.rs:825-852 | its row loop, newlines after rows, yields the joined rows |
| `SeqReader.OneRowRange` | crates/alacritty-driver/src/lib.rs:825-852 | a range on one row is that row's text from its start column to its end column, each at most the last column |
| `SeqReader.LastRowOfRange` | crates/alacritty-driver/src/lib.rs:825-852 | a longer range is the range down to the full row above its last, a newline unless that row wraps, and the last row up to the end column |
| `SeqReader.StartAboveGrid` | crates/alacritty-driver/src/lib.rs:820-830 | a start above the grid reads from its first cell |
| `SeqReader.EndAboveStart` | crates/alacritty-driver/src/lib.rs:820-830 | a range that ends above its start or above the grid is empty |
| `SeqReader.RangesMeet` | crates/alacritty-driver/src/lib.rs:807-853 | two ranges that meet between two columns of a row make the whole range if and only if the row wraps, no blank is trimmed before the meeting point, or only blanks follow it |
| `SeqReader.CursorsOfARead` | crates/alacritty-driver/src/lib.rs:890-936 | where an answer starts and stops, from the counter, the stored rows, the cursor and the end asked for; what is evicted; when the read is empty |
| `SeqReader.PageIsGreedy` | crates/alacritty-driver/src/lib.rs:880-966 | a page holds whole rows from the clamped start, is at most the cap unless its first row exceeds it, and when truncated no longer prefix fits |
| `SeqReader.PageStep` | crates/alacritty-driver/src/lib.rs:423-441 | a truncated page advances and its cursor asks for exactly the rows left out |
| `SeqReader.PagesPartitionTheRange` | crates/alacritty-driver/src/lib.rs:880-966 | paging from any start with any caps ends, and the pages' rows partition the clamped range in order |
| `SeqReader.PagesEqualOneRead` | crates/alacritty-driver/src/lib.rs:880-966 | the pages joined, a newline exactly after unwrapped last rows, equal one unlimited read |
| `SeqReader.EndIsExclusiveUnlessZero` | crates/alacritty-driver/src/lib.rs:880-923 | rows at or past the end are returned if and only if the end is 0, the start is the first cell and row 0 is retained |
| `SeqReader.ReadersAgree` | crates/alacritty-driver/src/lib.rs:807-966 | reading rows by sequence and by distance from the bottom gives the same text, evicted starts included, while both distances fit |
| `SeqReader.ReadersAgreeExactly` | crates/alacritty-driver/src/lib.rs:807-966 | the two agree whatever the rows hold if and only if both distances fit the signed arithmetic, or the start does not and the whole range is evicted |
| `SeqReader.FarStartReadsNothing` | crates/alacritty-driver/src/lib.rs:820-830 | a start distance that does not fit makes `get_text_range` return nothing |
| `SeqReader.FarEndReadsAll` | crates/alacritty-driver/src/lib.rs:820-830 | an end distance that does not fit makes it read to the bottom |
| `SeqReader.ResumingIsExact` | crates/alacritty-driver/src/lib.rs:423-441 | a read to the cursor and a resumed read make one later read if and only if no blank trimmed before the cursor had text written after it |
| `SeqReader.ResumingCanLoseABlank` | crates/alacritty-driver/src/lib.rs:423-441 | a terminal of one row on which the two reads differ from the one, under any cap |
| `SeqReader.OpenRead` | crates/alacritty-driver/src/lib.rs:880-966 | an open-ended read that is not cut short returns everything up to the cursor |
| `ModeTracker.ModeTracker.Process` | crates/alacritty-driver/src/lib.rs:102-180 | the byte loop computes the specified state and combined action; the histories below say in numbers what that state is |
| `ModeTracker.ModeTracker.HandleControl` | crates/alacritty-driver/src/lib.rs:198-232 | the handler obeys a control sequence as specified, soft reset and private modes included; the histories below say in numbers what each sequence does |
| `ModeTracker.SplitIndependent` | crates/alacritty-driver/src/lib.rs:102-180 | any cut of a byte stream in two gives the same state and combined action |
| `ModeTracker.ChunkingIndependent` | crates/alacritty-driver/src/lib.rs:102-180 | so does any chunking |
| `ModeTracker.PrintedCsiIsHandled` | crates/alacritty-driver/src/lib.rs:56-66 | a printed control sequence of any length from ground acts as the handler on its first eight parameters, each capped at 65535, and ends in ground |
| `ModeTracker.ProcessObeysCommands` | crates/alacritty-driver/src/lib.rs:102-232 | processing is scanning for commands and obeying them in order |
| `ModeTracker.CommandsInRange` | crates/alacritty-driver/src/lib.rs:56-66 | every command has one to eight parameters in range: the empty list never reaches the handler |
| `ModeTracker.MouseHistory` | crates/alacritty-driver/src/lib.rs:182-261 | after any byte history the mouse mode is 1, 2, 3 or 4 if and only if the last private set among 9, 1000, 1002 and 1003 was of 9, 1000, 1002 or 1003 and neither its own reset nor a full reset followed |
| `ModeTracker.MouseEncodingHistory` | crates/alacritty-driver/src/lib.rs:248-261 | likewise the encoding is 1, 2 or 3 by 1005, 1006 and 1016 |
| `ModeTracker.AlternateScreenHistory` | crates/alacritty-driver/src/lib.rs:198-232 | the alternate screen shows if and only if some private set of 47, 1047 or 1049 is followed by no reset of any of them and no full reset |
| `ModeTracker.CursorKeysHistory` | crates/alacritty-driver/src/lib.rs:192-232 | application cursor keys are on if and only if a set of 1 is followed by no reset of 1, soft reset or full reset |
| `ModeTracker.SyncedOutputHistory` | crates/alacritty-driver/src/lib.rs:182-232 | synchronized output likewise by 2026, which a soft reset leaves alone |
| `ModeTracker.KeypadHistory` | crates/alacritty-driver/src/lib.rs:113-196 | the application keypad is on if and only if ESC = is followed by no ESC >, soft reset or full reset |
| `ModeTracker.CursorStyleHistory` | crates/alacritty-driver/src/lib.rs:198-207 | the cursor style is v if and only if v is at most 6, the last request was for v and no reset followed |
| `ModeTracker.UsedRowsHistory` | crates/alacritty-driver/src/lib.rs:102-212 | the used rows start over if and only if the history holds a soft or full reset, an erase of everything or a form feed |
| `ModeTracker.EscapeDeeds` | crates/alacritty-driver/src/lib.rs:102-130 | the bytes of ESC =, ESC >, ESC c and form feed |
| `ModeTracker.SoftResetDeeds` | crates/alacritty-driver/src/lib.rs:198-202 | the bytes ESC [ ! p are a soft reset |
| `ModeTracker.CursorStyleDeeds` | crates/alacritty-driver/src/lib.rs:203-207 | ESC [ digits SP q asks for the style the digits spell, at most 65535 |
| `ModeTracker.PrivateDeeds` | crates/alacritty-driver/src/lib.rs:214-232 | ESC [ ? with any parameters and h or l sets or resets the first eight, each at most 65535, in order |
| `ModeTracker.EraseDeeds` | crates/alacritty-driver/src/lib.rs:208-213 | J and K erase everything if and only if one of the first eight parameters is 2 or 3 |
| `ModeTracker.QuietSequences` | crates/alacritty-driver/src/lib.rs:198-232 | every other printed sequence does nothing |
| `ModeTracker.DeedsConcat` | crates/alacritty-driver/src/lib.rs:102-180 | the deeds of two histories are those of both, when the first leaves no sequence open |
| `ModeTracker.HistoryKeepsRange` | crates/alacritty-driver/src/lib.rs:182-261 | after any byte history all tracked fields are in range |
| `ModeTracker.UnpackPack` | crates/browser/src/lib.rs:737-797 | the accessors invert packing on every tracker in range |
| `ModeTracker.WordHolds` | crates/alacritty-driver/src/lib.rs:263-291 | the bit of each flag and the place of each number in the mode word |
| `ModeTracker.BitsAreNumbers` | crates/alacritty-driver/src/lib.rs:263-291 | the three numbers stand there as they are |
| `ModeTracker.BrowserRecoversModes` | crates/alacritty-driver/src/lib.rs:263-291 | after any byte history the browser's accessors recover every field they read |
| `LinkCollector.Collector.Record` | crates/alacritty-driver/src/lib.rs:1294-1318 | returns true exactly when the cell now resolves to the URI, and keeps the table valid |
| `LinkCollector.RecordedKeeps` | crates/alacritty-driver/src/lib.rs:1280-1319 | the two maps stay inverse over ids 1 to the last, every cell id resolves, other cells keep theirs, and a URI is refused exactly when empty, too long, or new to a full table |
| `LinkCollector.RunIsValid` | crates/alacritty-driver/src/lib.rs:1280-1319 | the same after any sequence of calls |
| `LinkCollector.TableIsSeen` | crates/alacritty-driver/src/lib.rs:1280-1319 | the table holds only URIs seen, and all acceptable ones while there are ids; its size is the last id |
| `LinkCollector.AcceptanceIsStable` | crates/alacritty-driver/src/lib.rs:1294-1318 | no later call changes whether an earlier one's URI has an id |
| `LinkCollector.CellShowsLastAccepted` | crates/alacritty-driver/src/lib.rs:1280-1319 | after any calls each cell resolves to the last URI recorded on it that has an id, and to none if there is none |
| `CellCodec.EncodeContent` | crates/alacritty-driver/src/lib.rs:1419-1459 | the encoder's fast paths write the one specified content, length field and overflow entry |
| `CellCodec.EncodeCell` | crates/alacritty-driver/src/lib.rs:1326-1460 | exactly the cell's twelve bytes of the frame buffer change, to the cell's encoding; a default foreground leaves its three bytes as they were |
| `CellCodec.Fnv1a32` | crates/alacritty-driver/src/lib.rs:1463-1470 | the loop computes the 32-bit FNV-1a hash with wrap-around |
| `CellCodec.FlagsReadBack` | crates/alacritty-driver/src/lib.rs:1405-1417 | spacer, wide, inverse and link flags and the content length are read back from the second flag byte |
| `CellCodec.HeldFlags` | crates/alacritty-driver/src/lib.rs:1405-1460 | the second flag byte and the content stand at their places in the frame buffer |
| `CellCodec.StyleReadsBack` | crates/terminal-model/src/lib.rs:561-581 | colours and attributes are read back from every encoded cell, whatever the foreground bytes held before |
| `CellCodec.CellLayout` | crates/alacritty-driver/src/lib.rs:1326-1460 | where kinds, attributes, flags, colours and text stand in the twelve bytes, in numbers, with default roles 256 and 257 |
| `CellCodec.ContentLayout` | crates/alacritty-driver/src/lib.rs:1419-1459 | a blank has length 0, up to four bytes stand in place, longer text leaves a 7 and its hash |
| `CellCodec.FnvVectors` | crates/alacritty-driver/src/lib.rs:1463-1470 | the published values of the hash of short texts |
| `CellCodec.ByteLenIsUtf8` | crates/alacritty-driver/src/lib.rs:938-965 | the unit of the readers' byte caps is the length in UTF-8 |
| `CellCodec.NamedColourShown` | crates/alacritty-driver/src/lib.rs:1336-1383 | a named colour is shown as what it stands for if and only if it is a palette entry or the plane's own default; any other role is shown as a palette entry |
| `CellCodec.FrameAndTextAgree` | crates/alacritty-driver/src/lib.rs:784-805 | a cell's text on a frame equals its text in the readers if and only if it is a spacer, not blank, or has no marks |
| `CellCodec.CellRoundTrip` | crates/browser/src/terminal_state.rs:115-133 | the renderer reads every encoded cell: nothing for a spacer, one space for a blank, else the whole grapheme, inline or from the overflow table |
| `FrameBuilder.LineForCells` | crates/alacritty-driver/src/lib.rs:1188-1206 | the cell loop goes to the line the frame row shows |
| `FrameBuilder.LineForFlags` | crates/alacritty-driver/src/lib.rs:1248-1259 | the wrap-flag loop, with a different guard, goes to the same line at every offset |
| `FrameBuilder.BuildCells` | crates/alacritty-driver/src/lib.rs:1188-1224 | the row and column loops write every cell of the frame once and leave cells of missing lines blank |
| `FrameBuilder.BuildFrame` | crates/alacritty-driver/src/lib.rs:1169-1269 | for every grid and scroll offset the frame holds the cells, overflow texts, links and wrap flags of the lines that offset shows; a cursor on the screen stands at its own row and column, a coordinate outside at the last of its own axis; mode, keyboard flags and title are those given |
| `FrameBuilder.FrameSettings` | crates/terminal-model/src/lib.rs:182-200 | cursor, mode, keyboard flags and title of a frame, each clamped to its own axis or taken over |
| `FrameBuilder.LinksCarry` | crates/terminal-model/src/lib.rs:322-343 | a collected link table passes the frame's checks with every cell's link unchanged |
| `FrameBuilder.FrameShowsGrid` | crates/alacritty-driver/src/lib.rs:1169-1269 | every cell of the frame reads as the grid's text, style and link and every row as its wrap flag; cursor, mode, keyboard flags and title are where and what they were given as; a screen over the cell limit shows nothing |
| `FrameBuilder.NothingRefused` | crates/alacritty-driver/src/lib.rs:1294-1318 | no link is dropped while the screen has no more distinct links than there are ids |
| `FrameBuilder.FrameIsConsistent` | crates/alacritty-driver/src/lib.rs:1235-1269 | a built frame meets everything the renderer's reads rely on |
| `FrameBuilder.GridReachesBrowser` | crates/browser/src/terminal_state.rs:229-340 | every frame within the format's limits has a payload whose decoding reads, cell by cell, as the grid, with the cursor at its own row and column and mode, keyboard flags and title unchanged |
| `FrameBuilder.ParkedFrameFollows` | crates/alacritty-driver/src/lib.rs:519-565 | after a chunk shorter than the scrollback, a client that adds the driver's count to its offset gets the frame rows it had, where they are retained and unwritten |
| `LinkSpans.LinkSegments` | crates/browser/src/terminal_state.rs:147-190 | the two searches return exactly the segments of the maximal run of one link around the query, crossing rows only where wrapped |
| `LinkSpans.SegmentsAreTheCells` | crates/browser/src/terminal_state.rs:171-190 | the segments are one to a row, top to bottom, and together exactly the cells of the run |
| `LinkSpans.FindStart` | crates/browser/src/terminal_state.rs:156-172 | the backward search ends at the first cell of the run |
| `LinkSpans.CollectSegments` | crates/browser/src/terminal_state.rs:173-190 | the forward walk collects the run from its first to its last cell |
| `LinkSpans.SpanIsUnique` | crates/browser/src/terminal_state.rs:147-190 | two maximal runs of a link that share a cell are the same |
| `LinkSpans.EveryCellAnswersAlike` | crates/browser/src/terminal_state.rs:147-190 | every cell of a run is answered with that same run |
| `Snapshot.ParseIsEncode` | crates/browser/src/terminal_state.rs:229-340 | a payload parses to a wire record if and only if it is that record's encoding |
| `SnapshotState.DecodeIsEncode` | crates/browser/src/terminal_state.rs:229-340 | decoding accepts exactly the encodings and returns what they stand for |
| `SnapshotState.AcceptedIsConsistent` | crates/browser/src/terminal_state.rs:229-340 | an accepted payload has buffers of the right size, cursor and overflow keys in bounds, and every link id resolvable |
| `SnapshotState.TransposeRestores` | crates/browser/src/terminal_state.rs:406-446 | scattering the twelve planes restores the cells they were cut from |
| `SnapshotState.FillRestores` | crates/browser/src/terminal_state.rs:310-329 | filling the runs of a screen's links into blanks restores the links |
| `SnapshotState.EveryStateHasASnapshot` | crates/browser/src/terminal_state.rs:229-340 | every consistent state within the format's limits is the decoding of some payload |
| `SnapshotLayout.PayloadLayout` | crates/browser/src/terminal_state.rs:229-340 | printing a payload lays out exactly the bytes written out in this module: head, title, operations, planes, strings, line flags, scrollback, URIs, runs, keyboard byte |
| `SnapshotLayout.AcceptedHead` | crates/browser/src/terminal_state.rs:229-249 | what an accepted payload holds at which offset: geometry, clamped cursor, modes, flags and title; at most 500000 cells |
| `SnapshotLayout.AcceptedCells` | crates/browser/src/terminal_state.rs:250-281 | byte p of cell c of an accepted payload is byte c of plane p, behind title, operations and bitmap |
| `SnapshotLayout.BitmapBits` | crates/browser/src/terminal_state.rs:263-274 | the bitmap has a bit for every cell, lowest first, and no other |
| `SnapshotLayout.EveryScreenHasAPayload` | crates/browser/src/terminal_state.rs:229-340 | the limits within which a screen has a payload, in numbers |
| `Bytes.LittleEndian` | crates/browser/src/terminal_state.rs:381-387 | integers of all widths are written lowest byte first |
| `BrowserEncoder.TruncateUtf8` | js/core/src/yas/terminalRenderer.ts:107-112 | the loop cuts back to the last place no continuation byte follows |
| `BrowserEncoder.TruncatedIsLongestText` | js/core/src/yas/terminalRenderer.ts:107-112 | truncating a string's encoding gives the longest well-formed text that fits |
| `BrowserEncoder.CutOfString` | js/core/src/yas/terminalRenderer.ts:76-82 | a string's encoding cut anywhere is well-formed if and only if no continuation byte follows the cut |
| `BrowserEncoder.EncodePlanes` | js/core/src/yas/terminalRenderer.ts:64-75 | the transposing loops write the cells plane by plane |
| `BrowserEncoder.EncodeBrowserTerminalGrid` | js/core/src/yas/terminalRenderer.ts:21-105 | the encoder writes the specified payload, and throws exactly on more than 65535 overflow texts |
| `BrowserEncoder.AcceptedExactly` | js/core/src/yas/terminalRenderer.ts:21-105 | the renderer accepts the payload if and only if the grid is within the cell limit and no overflow text is cut inside a character, and then holds what the grid stands for |
| `BrowserEncoder.AcceptsInNumbers` | js/core/src/yas/terminalRenderer.ts:21-105 | those limits in numbers: 500000 cells, and no continuation byte at 65535 of an overflow text |
| `BrowserEncoder.UncleanTextExists` | js/core/src/yas/terminalRenderer.ts:76-82 | a text that is cut inside a character |
| `BrowserEncoder.GridArrives` | js/core/src/yas/terminalRenderer.ts:21-105 | cells, flags, cursor, modes, title and overflow texts arrive as they were |
| `BrowserEncoder.LinksArrive` | js/core/src/yas/terminalRenderer.ts:84-102 | each cell shows the URI of the last written run over it under its new number, and none if and only if no written run covers it |
| `BrowserEncoder.AllRunsWritten` | js/core/src/yas/terminalRenderer.ts:97-102 | every run is written if and only if there are at most 65535, each of at most 65535 cells and with a numbered URI |
| `BrowserEncoder.RunKeptInNumbers` | js/core/src/yas/terminalRenderer.ts:84-102 | a run is kept if and only if it has at most 65535 cells and one of the first 65535 URIs has its id |
| `BrowserEncoder.TitleArrives` | js/core/src/yas/terminalRenderer.ts:24-27 | a title arrives whole up to 4095 bytes, otherwise as its longest beginning that is text |
| `BrowserEncoder.LongRunsLoseTheirLink` | js/core/src/yas/terminalRenderer.ts:97-102 | the cells of a longer run lose their link |
| `SnapshotState.NewIsConsistent` | crates/browser/src/terminal_state.rs:43-63 | a new state is consistent |
| `SnapshotState.ContentFailsExactly` | crates/browser/src/terminal_state.rs:115-133 | reading slices past the cell if and only if a visible non-spacer cell has content length 5 or 6 |
| `SnapshotState.AcceptedCanFailToRead` | crates/browser/src/terminal_state.rs:229-340 | an accepted payload exists whose cell cannot be read |
| `SnapshotDecoder.Cursor.Take` | crates/browser/src/terminal_state.rs:370-375 | takes exactly the next bytes, or nothing and stays |
| `SnapshotDecoder.ScatterPlane` | crates/browser/src/terminal_state.rs:275-281 | one plane is written in place into every cell and nothing else changes |
| `SnapshotDecoder.ReadTable` | crates/browser/src/terminal_state.rs:282-309 | a counted table is read into a map, and a forbidden or repeated key rejects it |
| `SnapshotDecoder.DecodePayload` | crates/browser/src/terminal_state.rs:229-340 | the decoder's loops compute the decoding function |
| `SnapshotDecoder.Renderer.ApplySnapshot` | crates/browser/src/terminal_state.rs:221-227 | an accepted payload replaces the state, a rejected one changes nothing |
| `SnapshotDecoder.Renderer.FeedCompressed` | crates/browser/src/terminal_state.rs:192-204 | the same through decompression, with its failures |
| `SnapshotDecoder.Renderer.FeedCompressedBatch` | crates/browser/src/terminal_state.rs:206-219 | a batch applies its length-prefixed frames in order up to a zero length or an incomplete frame |
| `SnapshotDecoder.FeedsStayConsistent` | crates/browser/src/terminal_state.rs:192-227 | over any run of frames the state stays consistent, and rejected frames leave no trace |
| `SnapshotDecoder.AcceptedSize` | crates/browser/src/terminal_state.rs:192-204 | a frame is taken up only if it declares at most 64 MiB, lowest byte first |
| `SnapshotDecoder.BatchIsRead` | crates/browser/src/terminal_state.rs:206-219 | a batch written as lengths and frames is read as those frames, up to a zero length or an incomplete frame |
| `SnapshotDecoder.LastAcceptedWins` | crates/browser/src/terminal_state.rs:206-219 | the state after a list of frames is that of the last one accepted |
| `GlyphAtlas.AllocateKeepsShelves` | crates/browser/src/lib.rs:521-547 | a slot handed out lies on the canvas with its padding and is disjoint from all earlier ones |
| `GlyphAtlas.FailuresSettleUnlessWide` | crates/browser/src/lib.rs:521-547 | repeating a failed request leaves the shelf where it is if and only if it is not one short of the canvas width while fitting in height; such a request moves the shelf down by one each time |
| `GlyphAtlas.WrappedSizesMisplace` | crates/browser/src/lib.rs:521-547 | a slot of a size whose padding wraps around is never on the canvas |
| `GlyphAtlas.DriftedShelfMisplaces` | crates/browser/src/lib.rs:521-547 | a shelf that has drifted to within a glyph of 2^32 hands out slots off the canvas |
| `GlyphAtlas.StepKeeps` | crates/browser/src/lib.rs:381-455 | one call whose padding does not wrap keeps all live slots on the canvas and pairwise disjoint |
| `GlyphAtlas.StepKeepsKeys` | crates/browser/src/lib.rs:549-635 | a call leaves every key its slot unless the canvas is replaced or the metrics changed, and answers a known key with its slot |
| `GlyphAtlas.RunKeepsSlotsApart` | crates/browser/src/lib.rs:381-635 | after any sequence of glyph requests, invalidations and resizes whose padding never wraps, with fewer than the limit of requests one short of the canvas width between clearings, all live slots lie on the canvas with their padding and no two overlap |
| `GlyphAtlas.RunKeepsKeys` | crates/browser/src/lib.rs:381-635 | over any sequence of calls that never clears the table a key keeps its slot |
| `GlyphAtlas.OrdinaryRunsAreSound` | crates/browser/src/lib.rs:461-485 | calls with metrics below 2^30 never wrap, so only their number matters |
| `GlyphAtlas.NewAtlasKeepsSlotsApart` | crates/browser/src/lib.rs:381-635 | from a new atlas any sequence of fewer than about 2^32 calls with metrics below 2^30 keeps the slots on the canvas and apart |
| `GlyphAtlas.Atlas.Invalidate` | crates/browser/src/lib.rs:381-397 | the table is cleared, the shelf starts afresh and the invariant holds with a count of 0 |
| `GlyphAtlas.Atlas.EnsureCanvasSized` | crates/browser/src/lib.rs:407-455 | succeeds exactly when a canvas is there or can be had, and clears the table exactly when it is replaced |
| `GlyphAtlas.Atlas.EnsureMetrics` | crates/browser/src/lib.rs:461-485 | moves the table as specified, and on success the metrics are those announced |
| `GlyphAtlas.Atlas.AllocateSlot` | crates/browser/src/lib.rs:521-547 | the shelf moves as specified, 32-bit wrap-around included, and a slot handed out is on the canvas and disjoint from every live one |
| `GlyphAtlas.Atlas.EnsureGlyph` | crates/browser/src/lib.rs:549-635 | the request moves the whole table as specified; unless its padding wraps, the live slots stay on the canvas and disjoint with the count of wide requests up by at most one; every key keeps its slot unless the call clears the table; the size of the slot is in the next rows |
| `GlyphSizes.LiveSlotsAreSized` | crates/browser/src/lib.rs:549-570 | from a new atlas, after any calls with ordinary metrics, every live slot is one or two cells of the size in force wide, plus its padding twice, and two pixels taller than a cell |
| `GlyphSizes.AnswerIsSizedExactly` | crates/browser/src/lib.rs:461-570 | an answer has the height of its own request, and its width if and only if the request changed the cell size or the padding in force is the one it would have measured |
| `GlyphSizes.StaleOverhang` | crates/browser/src/lib.rs:461-485 | two requests that differ only in the overhang: the second gets a slot too narrow for it |
| `GlyphSizes.SlotsApartInPixels` | crates/browser/src/lib.rs:374-455 | on a canvas of 2048 to 8192 pixels live slots are at least one pixel inside and two from each other |
| `Utf8.AcceptsExactlyTheGrammar` | extensions/typescript/yas.ts:115-182 | the decoder accepts a byte sequence if and only if it matches section 4 of RFC 3629 |
| `Utf8.DecodeEncode` | extensions/typescript/yas.ts:81-182 | decoding encoded scalars gives them back |
| `Utf8.EncodeDecode` | extensions/typescript/yas.ts:81-182 | encoding what was decoded reproduces the bytes |
| `Utf8.RejectionPoint` | extensions/typescript/yas.ts:115-182 | a rejection names the end of the longest well-formed prefix |
| `Utf8.TextRoundTrip` | extensions/typescript/yas.ts:81-182 | decoding the encoding of any UTF-16 string gives it with exactly its unpaired surrogates replaced by U+FFFD |
| `Utf8.DecodeIsStrict` | extensions/typescript/yas.ts:115-182 | whatever the decoder accepts re-encodes to itself, and it accepts nothing outside the grammar |
| `Utf8.EncodeUtf8` | extensions/typescript/yas.ts:81-108 | the index loop computes the encoding |
| `Utf8.DecodeUtf8` | extensions/typescript/yas.ts:115-182 | the index loop computes the decoding and its error position |
| `Utf8.FromCharCodes` | extensions/typescript/yas.ts:177-182 | building the string in slices of code units loses none |
| `Utf8.FrontDigits` | extensions/typescript/yas.ts:115-176 | the payload bits of the decoded bytes are the digits of the code point, for each width |
| `Utf8.UnitIsBytes` | extensions/typescript/yas.ts:81-108 | a code unit alone is one well-formed character that spells it, a surrogate one that spells U+FFFD |
| `Utf8.PairIsBytes` | extensions/typescript/yas.ts:81-108 | a surrogate pair is one character of four bytes, ten bits from each half above 0x10000 |
| `Utf8.EncodingInPieces` | extensions/typescript/yas.ts:81-108 | encoding two pieces is encoding the whole if and only if no surrogate pair is cut in two |
| `Registry.ValidateConst` | crates/yas/schema_codegen.rs:774-784 | accepts exactly nonempty upper-case names not starting with a digit |
| `Registry.ValidateRegistry` | crates/yas/schema_codegen.rs:501-545 | accepts exactly registries with distinct names and constants, rising ids, nonzero versions and ordered earlier dependencies |
| `Registry.ValidateDependencies` | crates/yas/schema_codegen.rs:524-542 | the inner loop accepts exactly known, strictly increasing, earlier dependencies |
| `Registry.AcceptedInWords` | crates/yas/schema_codegen.rs:501-545 | the validator accepts exactly registries of well-formed names and positive versions, without repeated names or constants, with rising ids, whose dependencies name earlier families in their order |
| `Registry.TopologicalOrder` | crates/yas/schema_codegen.rs:501-545 | each dependency of an accepted registry names exactly one family, and an earlier one |
| `Registry.WalksDescend` | crates/yas/schema_codegen.rs:501-545 | every walk along dependencies ends before where it began |
| `Registry.Acyclic` | crates/yas/schema_codegen.rs:501-545 | the dependency graph has no cycle |
| `FamilyLimits.ValidateConstants` | crates/yas/schema_codegen.rs:720-729 | accepts exactly well-formed, distinct constant names |
| `FamilyLimits.ValidateLimits` | crates/yas/schema_codegen.rs:672-718 | accepts exactly as many limits as there are `LIMIT_` constants, each matching one, with rising tags and sane bounds |
| `FamilyLimits.LimitHasOneConstant` | crates/yas/schema_codegen.rs:672-718 | each limit of an accepted family has exactly one constant with its name and tag |
| `FamilyLimits.ConstantHasOneLimit` | crates/yas/schema_codegen.rs:672-718 | each `LIMIT_` constant has exactly one limit, by counting |
| `FamilyLimits.AcceptedPoliciesInWords` | crates/yas/schema_codegen.rs:672-718 | of distinct constants the validator accepts exactly well-formed policies with rising tags that match the `LIMIT_` constants one for one |
| `FamilyLimits.FamilyLimitExtensions` | crates/yas/schema_codegen.rs:4492-4514 | the writing loop produces the tag-length-value block of the limits |
| `FamilyLimits.BlockDecodes` | crates/yas/src/codec.rs:111-141 | the block decodes to one optional extension per limit in order, exactly when the transport allows that many entries |
| `FamilyLimits.LimitBytes` | crates/yas/schema_codegen.rs:4492-4514 | the bytes of an announced limit |
| `FamilyLimits.EntriesDecodeExactly` | crates/yas/src/codec.rs:111-141 | decoding accepts exactly the written extensions with rising tags, no more than there is room for, and returns them |
| `FamilyLimits.AcceptedLimitsReadBack` | crates/yas/schema_codegen.rs:4492-4514 | every announced limit of an accepted family reads back as its tag and hard maximum |
| `FamilyLimits.UnboundedLimitIsTruncated` | crates/yas/schema_codegen.rs:4492-4514 | a 32-bit limit survives the narrowing cast if and only if it is below 2^32, which is what the validator demands |
| `FrameHeader.MetaRoundTrip` | crates/yas/schema_codegen.rs:547-579 | for every accepted transport, class and flags are read back from the meta byte they were packed into |
| `FrameHeader.MetaInverse` | crates/yas/schema_codegen.rs:547-579 | every meta byte without reserved bits is the packing of what is read from it |
| `FrameHeader.EncodesExactlyLegal` | crates/yas/schema_codegen.rs:4891-4903 | the encoder accepts exactly headers of a known class with a nonzero request id if and only if correlated |
| `FrameHeader.DecodeEncode` | crates/yas/schema_codegen.rs:4885-4916 | decoding an encoded legal header followed by any payload gives the header and its length |
| `FrameHeader.EncodeDecode` | crates/yas/schema_codegen.rs:4885-4916 | re-encoding any accepted header reproduces the bytes consumed |
| `FrameHeader.HeaderLayout` | crates/yas/schema_codegen.rs:4885-4916 | a header is family, kind, meta byte and the request id if it has one, lowest byte first, five or nine bytes |
| `FrameHeader.EncodeErrors` | crates/yas/schema_codegen.rs:4891-4903 | which headers are refused for which reason |
| `FrameHeader.DecodeErrors` | crates/yas/schema_codegen.rs:4904-4916 | which bytes are refused for which reason |
| `FrameHeader.TsEncodesExactlyLegal` | crates/yas/schema_codegen.rs:5464-5480 | of all integer fields the TypeScript encoder takes exactly those in range of a legal header, and writes the Rust bytes |
| `FrameHeader.EncodersAgree` | crates/yas/schema_codegen.rs:5464-5480 | both encoders accept the same headers with the same bytes |
| `FrameHeader.DecodersAgree` | crates/yas/schema_codegen.rs:5481-5494 | both decoders accept the same inputs with the same header and length |
| `FrameHeader.OneSideReadsTheOther` | crates/yas/schema_codegen.rs:5456-5494 | a header written by either side is read back by the other |
| `Compatibility.Check` | crates/yas/compatibility.rs:13-122 | no problem is reported if and only if the schemas are related by the compatibility relation, which `CompatibilityFields.CompatibleInWords` spells out field by field |
| `Compatibility.CompareFamilies` | crates/yas/compatibility.rs:124-203 | adds a problem if and only if some family or one of its lists is not kept |
| `Compatibility.CompareArrayEntries` | crates/yas/compatibility.rs:205-241 | adds a problem if and only if a keyed list is malformed or an entry is not kept |
| `Compatibility.CompareFields` | crates/yas/compatibility.rs:243-261 | adds a problem if and only if a listed field differs |
| `Compatibility.Index` | crates/yas/compatibility.rs:263-276 | indexes entries by key and reports exactly bad and repeated keys |
| `Compatibility.CompatibleTransitive` | crates/yas/compatibility.rs:13-292 | compatibility is transitive over all JSON values |
| `Compatibility.CompatibleReflexive` | crates/yas/compatibility.rs:13-292 | a schema is compatible with itself if and only if its lists are there with distinct scalar keys |
| `Compatibility.AppendingKeepsCompatible` | crates/yas/compatibility.rs:13-292 | appending entries with fresh keys at any levels at once keeps compatibility |
| `Compatibility.JoinedKeyIdentifies` | crates/yas/compatibility.rs:278-292 | every entry with a given joined key has the same two key texts if and only if neither text holds a slash |
| `Compatibility.SlashFreeCodecsAreKeyed` | crates/yas/compatibility.rs:263-292 | codec entries without slashes pass as keyed if and only if no two share both key fields |
| `Compatibility.SlashedCodecsAreRejected` | crates/yas/compatibility.rs:205-292 | for every codec entry with a slash there is one sharing neither key field, and no schema listing both is well keyed or compatible with any baseline |
| `CompatibilityFields.CompatibleInWords` | crates/yas/compatibility.rs:13-203 | a schema is accepted if and only if it keeps the contract written out field by field: every family, request, event, limit, type, constant, status, codec and compression found under its key with the named fields equal, the transport and state objects likewise, keys distinct |
| `CompatibilityFields.ChangedOperation` | crates/yas/compatibility.rs:157-183 | changing any one of name, kind, direction, sensitive, compression, datagram and layout of a request or event breaks compatibility |
| `CompatibilityFields.ChangedLimit` | crates/yas/compatibility.rs:184-188 | so does any of name, tag, type, required, hard_min and hard_max of a limit |
| `CompatibilityFields.ChangedType` | crates/yas/compatibility.rs:189-189 | and the layout of a type |
| `CompatibilityFields.ChangedConstant` | crates/yas/compatibility.rs:190-190 | and the value of a constant |
| `CompatibilityFields.ChangedFamily` | crates/yas/compatibility.rs:150-156 | and name, const_name, id, version or dependencies of a family |
| `CompatibilityFields.ChangedStatus` | crates/yas/compatibility.rs:82-90 | and name or code of a status |
| `CompatibilityFields.ChangedCodec` | crates/yas/compatibility.rs:91-110 | and any of the ten fields of a packed codec |
| `CompatibilityFields.ChangedTransport` | crates/yas/compatibility.rs:22-45 | and any of the twelve fields of the transport |
| `CompatibilityFields.ChangedCompression` | crates/yas/compatibility.rs:46-54 | and name or id of a compression |
| `CompatibilityFields.ChangedState` | crates/yas/compatibility.rs:57-78 | and value or layout of a constant or type of the state |
| `CompatibilityFields.ChangedSchema` | crates/yas/compatibility.rs:20-62 | and the schema version of the whole or of the state |
| `GrepContext.CollectHits` | crates/cli/src/grep.rs:565-578 | the line loop collects the numbers of matching, or when inverted non-matching, lines |
| `GrepContext.CollectedHits` | crates/cli/src/grep.rs:565-578 | the hits are exactly those lines, in increasing order |
| `GrepContext.BuildGroups` | crates/cli/src/grep.rs:757-766 | the merging loop builds the specified groups |
| `GrepContext.GroupsAreTheWindows` | crates/cli/src/grep.rs:753-766 | groups are ordered and non-adjacent and hold exactly the lines of the clipped windows |
| `GrepContext.Render` | crates/cli/src/grep.rs:739-821 | what is printed is, line by line, every line near a hit, a hit as a hit, and separators before later runs when context is on |
| `GrepContext.PrintingIsExpected` | crates/cli/src/grep.rs:768-821 | printing group by group equals deciding line by line |
| `GrepContext.PrintedOnce` | crates/cli/src/grep.rs:781-814 | each line near a hit is printed exactly once and in its own kind, any other line never |
| `GrepContext.HitsArePrinted` | crates/cli/src/grep.rs:781-814 | every hit is printed exactly once, as a hit |
| `GrepContext.PrintedInOrder` | crates/cli/src/grep.rs:768-821 | lines come out in increasing order |
| `GrepContext.SeparatorsMarkGaps` | crates/cli/src/grep.rs:768-780 | with context on a separator stands between two printed lines exactly when they are not neighbours; otherwise there is none |
| `GrepContext.PrintedNearHits` | crates/cli/src/grep.rs:757-766 | a line is printed, once and as a hit or as context, if and only if it exists and some hit is at most `after` lines above or `before` lines below it |
| `GrepContext.SeparatorsWhenAsked` | crates/cli/src/grep.rs:768-780 | gaps are marked if and only if separators are not turned off and some context was asked for |
| `ForwardSpec.SplitFields` | crates/cli/src/forward.rs:98-124 | the character loop computes the specified scan, early exits included |
| `ForwardSpec.SplitUndoesJoin` | crates/cli/src/forward.rs:98-124 | splitting undoes joining raw and bracketed fields with colons |
| `ForwardSpec.MisreadsField` | crates/cli/src/forward.rs:98-124 | a text that opens a bracket, or closes the one put around it, is not read back whatever follows |
| `ForwardSpec.PortRoundTrip` | crates/cli/src/forward.rs:32-94 | every 16-bit port is read back from its decimal form |
| `ForwardSpec.KindRoundTrip` | crates/cli/src/forward.rs:32-65 | a printed kind is read back, and text without a slash is plain TCP |
| `ForwardSpec.PrintableRoundTrips` | crates/cli/src/forward.rs:32-94 | printing and parsing gives back every printable specification |
| `ForwardSpec.RoundTripExactly` | crates/cli/src/forward.rs:32-124 | and no other: parse(display(s)) is s if and only if s is printable |
| `ForwardSpec.KindPrefixes` | crates/cli/src/forward.rs:53-63 | `tcp/` before a text without a slash changes nothing; `udp/` and `tls/` change the kind alone |
| `ForwardSpec.UnknownKinds` | crates/cli/src/forward.rs:59-61 | any other kind is refused as unknown |
| `ForwardSpec.LoopbackIsTheDefault` | crates/cli/src/forward.rs:68-72 | three fields mean the same as four with 127.0.0.1 in front |
| `ForwardSpec.PortTexts` | crates/cli/src/forward.rs:73-84 | the texts read as a port are exactly its decimal numeral after any zeros, with or without a plus sign, up to 65535 |

## Left out

- Scrollback: the emulator is its commented contract; scroll regions not at the top, column resizes, history clears and the contents of the alternate grid are not modelled.
- SeqReader: a grid has fewer than 2^31 lines, so the conversions in `seq_text` are exact; a build that traps on overflow would stop where `get_text_range` wraps.
- ModeTracker: that the emulator's own parser sees the same commands is not stated, so what the tracker says about crossing screens is an input to `Scrollback`; of the used rows only when they start over is modelled, title and mouse event encoding are not.
- CellCodec: how palette entries become colours on screen is not modelled; the five underline styles are one flag, as in the cell's bytes.
- FrameBuilder.GridReachesBrowser: states that a payload exists; the server's own frame codec between driver and page is not modelled.
- Snapshots: strings are held as UTF-8 bytes; decompression is any partial function from bytes to bytes.
- BrowserEncoder: takes a grid as its decoder guarantees it, overflow texts listed by index; that decoder and the compression of the payload are not modelled.
- GlyphAtlas: canvas drawing and font measuring are given; `size_for_glyphs` is not modelled and nothing is claimed about capacity.
- Utf8: bit operations are written as arithmetic; `ByteWriter` and `ByteReader` are not modelled.
- FrameHeader.DecodeEncode: of the transport validator only the conditions on the header are modelled; preface, frame limits, datagram predicates and codec list do not affect the header. Fractional TypeScript numbers, which the encoder refuses, are left out.
- Registry.ValidateRegistry: returns a verdict, not the message text; the same holds for the other validators.
- FamilyLimits.BlockDecodes: tags are 16-bit and maxima 64-bit, as their types are in the source.
- Compatibility: JSON numbers are identified with their printed text; message wording is reduced to the kind and place of a problem.
- GrepContext.Render: line mode without stopping at the first group; matching itself, line formatting, the other output modes and multi-line matching are not modelled, and line numbers do not overflow.
- ForwardSpec: listening, relaying and TLS options are not modelled; error texts are reduced to their kinds.
- Search, HTML and vertex output, background runs, transports, sockets, scripts and build tooling are not modelled.
