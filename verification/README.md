# Verified models of psi's hardest code

psi is a terminal agent written in C and Lua. This project models the parts of it that are
hardest to get right and proves what they are for:

- **Text pipeline** (`src/lua/vm.c`): the byte scanner for escapes, newlines and grapheme
  clusters, and the ANSI wrapper with its two modes. A wrapped text is drawn line by line on
  a terminal that understands SGR and OSC 8, and compared with the unwrapped text. The
  wrapper is modelled twice: as functions on tokens, where the theorems are, and as a class
  with the C code's buffers, whose methods are proved against the functions.
- **Streaming HTTP queue** (`src/core/http_async.c`): two threads as a transition system with
  one step per critical section, and the linked list on the heap with a method per section.
- **Line renderer** (`src/lua/vm.c`): a cache of the last frame and a terminal of rows and a
  cursor.
- **Process layer** (`src/core/process.c`): Windows argument quoting against the runtime's
  parser, UTF-8 to UTF-16, output capture under any read schedule, and the abort protocol.
- **JSON codec, file slicer, token index, base64** (`src/lua/vm.c`, `src/core/session.c`,
  `lua/psi/context.lua`, `lua/psi/base64.lua`): round trips, and fast forms against simple ones.

`dafny verify dfyconfig.toml` checks everything.

Where the code differs from what one would expect of it, the model follows the code, a lemma
gives an input that shows it, and another says exactly when the expectation is met:

- a colour index zero counts as a full reset (`SgrLimits.ColourZeroLost`, `SgrLimits.SurvivesIff`);
- an ESC at the end of a cluster is still remembered in word mode
  (`WrapSwallow.JoinedOpensEscape`, `WrapSwallow.KeepsWordsIff`);
- a double underline can stay on past a line end (`WrapLeaks.DoubleDoesNotClose`,
  `WrapLeaks.NeverLeaksIff`);
- the byte count of the queue is not the size of its list (`HttpQueue.CountIsNotSize`,
  `HttpQueue.CountExactly`);
- the status 130 does not prove an abort (`Abort.StatusIsAmbiguous`, `Abort.StatusTellsAbort`);
- the scanner reads overlong forms, surrogates and numbers beyond Unicode as code points, where the
  converter to UTF-16 puts U+FFFD (`ScanDecode.DecodeExactly`, `Utf16.FrontExactly`);
- what a child writes just before it exits can be missed (`PollOutcome.OutputMissed`,
  `PollOutcome.PollDecided`);
- SIGKILL can follow SIGTERM at once (`Abort.KilledAtOnce`, `Abort.FinishSends`);
- some program names do not read back (`WinQuote.BackslashedNameDiffers`, `WinQuote.CommandLineReadsBack`),
  and after some the arguments do not (`WinProgram.SteadyNames`, `WinProgram.StopsAfterIff`);
- a negative token target is taken for zero on the fast path only
  (`TokenIndex.NegativeTargetDiffers`, `TokenIndex.NegativeTargets`);
- a wrapped total of tokens can keep too much (`TokenIndex.WrappedIndexKeepsTooMuch`,
  `TokenIndex.WrapDecides`; only here the condition is one for totals within the target).

Comments in `src/lua/vm.c` say that word mode preserves whitespace runs. Between the words of
a line it does, as wide as they are (`WrapLayout.WordsLaidOut`); at breaks and line ends it
drops them, and marks attached to a space are dropped everywhere.

Two kinds of assumption stand in for data and hardware. `Glue.TableFacts` says that Indic
consonants and the code points U+00C2 to U+00F4 have a positive width, which the shipped
width table grants. The terminal reads the lines with the same tokens as the scanner.

## Model

| member | source | states |
|---|---|---|
| `ScanLoops.ReadEscape` | src/lua/vm.c:1439-1488 | The escape loop finds an escape exactly at an ESC byte and stops after the CSI final byte, after BEL or ESC \\, or at the end of the text. |
| `ScanLoops.HardNewlineEnd` | src/lua/vm.c:1490-1509 | A hard newline is CR LF, CR or LF, and its whole length is skipped. |
| `ScanLoops.DecodeUtf8` | src/lua/vm.c:1511-1562 | The index form decodes any bytes, malformed ones included, as the specification reads the rest of the text, and always moves on. |
| `ScanLoops.NextCluster` | src/lua/vm.c:1687-1757 | The loop over joiners, modifiers, Indic linkers and regional indicators ends where the cluster automaton refuses a code point, with the same width; after a pending joiner it swallows anything. |
| `ScanLoops.RunForgetsPair` | src/lua/vm.c:1702-1754 | Looking for a second regional indicator only once, before the loop, gives the cluster that looking for it at every step gives. |
| `ScanLoops.VisibleWidthBytes` | src/lua/vm.c:1759-1775 | The measuring loop adds up exactly the widths of the tokens of the text. |
| `ScanLoops.ByteIndexForWidth` | src/lua/vm.c:2195-2227 | For a positive width, the index is the longest token boundary whose prefix, measured on its own, fits; otherwise it is 0. |
| `ScanDecode.DecodeEncoded` | src/lua/vm.c:1511-1562 | Every scalar, encoded by section 3 of RFC 3629, decodes to itself with its whole length, whatever follows. |
| `ScanDecode.DecodeExactly` | src/lua/vm.c:1511-1562 | All of decoding: the scalar whose encoding comes first; for an overlong form, a surrogate or a number beyond U+10FFFF, all of which the standard forbids, the value of its payload bits; otherwise the first byte as itself. |
| `ScanEscapes.EscapeExactly` | src/lua/vm.c:1439-1488 | A CSI sequence ends with its first byte from 0x40 to 0x7e, an OSC or APC sequence with its first BEL or ESC backslash, any other after two bytes; without such an end, with the text. |
| `ScanEscapes.NewlineExactly` | src/lua/vm.c:1490-1509 | CR LF is one newline, and so is a CR or an LF alone. |
| `ScanClusters.ExtendJoins` | src/lua/vm.c:1702-1754 | A code point joins a cluster exactly when the code points before it say so: a second regional indicator, a joiner or mark, a linker or linked consonant in a conjunct, or anything after a pending joiner; and the width grows accordingly. |
| `ScanClusters.ExtendRemembers` | src/lua/vm.c:1702-1754 | What the loop remembers between code points is what the code points themselves tell. |
| `ScanClusters.ClusterForms` | src/lua/vm.c:1687-1757 | The first cluster of any text of scalars holds exactly the scalars that join one after the other, and is as wide as they are together. |
| `ScanClusters.Flag` | src/lua/vm.c:1702-1711 | Any two regional indicators are one cluster of eight bytes and width two. |
| `ScanClusters.TypedWidth` | src/lua/vm.c:1759-1775 | Printable ASCII is as wide as it is long, a tab counting three. |
| `ScanClusters.WidthByTable` | src/lua/vm.c:1568-1685 | Widths by code point: none for controls, one beyond Unicode, else the table's within 0 and 2; marks are what the table gives no width, and skin tones. |
| `Locality.TokensCover` | src/lua/vm.c:1439-1775 | Escapes, newlines and clusters split any byte string into nonempty tokens that cover it exactly. |
| `Locality.ExactTokens` | src/lua/vm.c:1439-1775 | A list of tokens is stable under rescanning exactly when its bytes scan to the list itself. |
| `Locality.ScanLocality` | src/lua/vm.c:1439-1775 | Cut at any token boundary, the two halves scan on their own to the same tokens and their widths add up. |
| `Glue.GlueInert` | src/lua/vm.c:1439-1757 | Tokens that are over stay as they are when an escape or a space is put after them. |
| `Glue.BlankForWhitespace` | src/lua/vm.c:2298-2305 | A single space can take the place of a whitespace cluster, whatever marks were attached to it, without changing what follows. |
| `Glue.GlueZero` | src/lua/vm.c:2042-2112 | Whitespace can be dropped after escapes and clusters of no width without joining them to the next cluster. |
| `SgrLoops.SgrResets` | src/lua/vm.c:1777-1808 | The parameter loop says reset exactly when the sequence is ESC[m or has a parameter written as zero. |
| `SgrExact.ResetsExactly` | src/lua/vm.c:1777-1808 | By its bytes: a sequence is taken for a reset exactly when it is ESC[m or holds a number made of zeros only. |
| `SgrLoops.ParseSgrValue` | src/lua/vm.c:1810-1826 | One parameter is read up to the first byte that is no digit, with its decimal value. |
| `SgrLoops.SkipColorValue` | src/lua/vm.c:1828-1877 | After 38 or 48 the loop stands behind the one or three colour components, as far as they are there. |
| `SgrLoops.UnderlineAfterSgr` | src/lua/vm.c:1828-1926 | The underline flag after a sequence is the one that reading its parameters left to right gives, off after a reset. |
| `SgrLoops.ReadOsc8` | src/lua/vm.c:1879-1912 | An OSC 8 sequence closes the link, opens one with its own terminator, or changes nothing. |
| `Sgr.ReplayStep` | src/lua/vm.c:1928-1937 | One more faithful escape: replaying what the wrapper remembers still gives the terminal's style. |
| `Sgr.ReplayStyle` | src/lua/vm.c:2008-2018 | The sequences put at the start of a continuation line restore the style that the terminal had. |
| `SgrLimits.FaithfulTest` | src/lua/vm.c:1777-1808 | The wrapper's notion of reset agrees with the terminal's on every style if and only if it does on one style with everything on. |
| `SgrLimits.WitnessScans` | src/lua/vm.c:1439-1488 | The witness for a sequence is the scan of a text: every style switched on, the sequence, two letters. |
| `SgrLimits.WitnessLosesStyle` | src/lua/vm.c:1914-1926 | For every sequence that is taken for a reset and is none there is a text whose second letter loses its style at a line break, in preserve mode and in word mode. |
| `SgrLimits.SurvivesIff` | src/lua/vm.c:1777-1926 | The exact condition, in each mode, for every sequence and over all texts: it survives line breaks in every text whose other sequences are faithful if and only if, when it is taken for a reset, it clears the style FULL. |
| `SgrLimits.ColourZeroLost` | src/lua/vm.c:1799-1801 | 38;5;0 does not survive, in neither mode. |
| `SgrTracking.OrdinaryFaithful` | src/lua/vm.c:1777-1808 | Pure resets and sequences without zero or empty parameters are faithful (ECMA-48 section 8.3.117). |
| `SgrTracking.UnderlineTracks` | src/lua/vm.c:1828-1877 | Over proper parameters, colours included, the underline flag is the terminal's underline. |
| `SgrTracking.OrdinaryTracks` | src/lua/vm.c:1828-1926 | Wherever the terminal underlines once after an ordinary sequence, the wrapper knows it. |
| `SgrTracking.FlagIsUnderline` | src/lua/vm.c:1828-1937 | Over a whole text of regular sequences the underline flag is set exactly while the terminal underlines. |
| `SgrTracking.DoubleTracks` | src/lua/vm.c:1828-1926 | Where a sequence leaves a double underline, the wrapper has an underline to close, if that holds from a plain start. |
| `WrapContext.Context.UpdateActiveEscape` | src/lua/vm.c:1928-1937 | The remembered bytes, flag and terminator after an escape spell the remembered tokens of the model. |
| `WrapContext.Context.UpdateActiveFromText` | src/lua/vm.c:1939-1956 | The byte-by-byte reading of a word leaves the memory that RememberText gives. |
| `WrapContext.Context.PushLine` | src/lua/vm.c:1984-2020 | A line is closed with underline-off and link-close where needed, stored, and the next one opened with the remembered sequences; the buffers are stated in full. |
| `WrapContext.Context.AppendPiece` | src/lua/vm.c:2022-2040 | A piece goes to the current line, or to a new one when it has width and would overflow. |
| `WrapContext.Context.FlushPendingSpace` | src/lua/vm.c:2046-2075 | Pending whitespace is dropped after a soft wrap or at one, and otherwise written as spaces. |
| `WrapContext.Context.PlaceWordTokens` | src/lua/vm.c:2084-2106 | A word wider than a line is placed token by token, scanning its bytes again. |
| `WrapContext.Context.FlushWord` | src/lua/vm.c:2042-2112 | The whole step of word mode on the buffers equals the step of the model on tokens. |
| `WrapContext.Context.Preserve` | src/lua/vm.c:2114-2146 | The loop of preserve mode on bytes and indexes does what PlaceTokens does on the tokens of the text. |
| `WrapContext.Context.Words` | src/lua/vm.c:2280-2313 | The loop of word mode on bytes and indexes does what StepWords does on the tokens of the text. |
| `WrapContext.WrapAnsi` | src/lua/vm.c:2253-2327 | The returned lines are the texts of the lines that the model wraps, in both modes; every theorem on WrapText is one about them. |
| `WrapExact.PreserveExact` | src/lua/vm.c:1984-2146 | In preserve mode, inserted sequences included, every output line scans to its own tokens. |
| `WrapWordsExact.WordsExact` | src/lua/vm.c:2042-2112 | The same in word mode, where whitespace is dropped and replaced. |
| `WrapTheorems.PreserveKeepsStyle` | src/lua/vm.c:1984-2146 | Drawn line by line from a reset terminal, every cluster has the SGR attributes and the link that it has in the unwrapped text. |
| `WrapTheorems.WordsKeepStyle` | src/lua/vm.c:2042-2317 | The same in word mode for everything but whitespace, if no cluster that is drawn as it stands ends with an ESC; the whitespace that is drawn is a subsequence of the text's, laid out as spaces in its own style. |
| `Swallow.GlyphHarmless` | src/lua/vm.c:1714-1754 | Inside a cluster nothing but non-ASCII bytes follow an ESC; a cluster that does not end with one holds nothing that reads as an escape sequence. |
| `WrapWordsStyle.RememberTextIsTokens` | src/lua/vm.c:1939-1956 | Reading a word byte by byte finds the escapes of its tokens and no others, unless a cluster ends with an ESC. |
| `WrapSwallow.OpenEscapeChangesStyle` | src/lua/vm.c:2077-2083 | For every cluster that ends with an ESC and is no whitespace there is a text without any escape sequence whose last letter comes out bold. |
| `WrapSwallow.KeepsWordsIff` | src/lua/vm.c:1939-2112 | The exact condition, for every cluster and over all texts: it keeps word-mode styles wherever nothing else harms them if and only if it is whitespace or its last byte is not ESC. |
| `WrapSwallow.JoinedOpensEscape` | src/lua/vm.c:1740-1751 | There is such a cluster: a letter, a zero-width joiner and an ESC. |
| `WrapClean.LinesEndClean` | src/lua/vm.c:1984-2018 | With ordinary sequences, no line but the last ends with a single underline or a link still on; and with no double underline either, if every sequence closes what it opens. |
| `WrapLeaks.LeaksDouble` | src/lua/vm.c:1984-1991 | A sequence that leaves a double underline where the wrapper has no underline to close leaves it on past a line end. |
| `WrapLeaks.NeverLeaksIff` | src/lua/vm.c:1828-2018 | The exact condition, in each mode, for every ordinary sequence and over all texts: it never leaves an underline of either kind on at a line end if and only if, from a plain start, a double underline of it comes with the wrapper's flag. |
| `WrapLeaks.DoubleDoesNotClose` | src/lua/vm.c:1828-1877 | SGR 21 alone is ordinary and does not meet it. |
| `WrapTheorems.PreserveKeepsText` | src/lua/vm.c:1984-2146 | Without the inserted sequences, the lines of preserve mode joined are the text without its hard newlines, byte for byte. |
| `WrapSource.PreserveSourceLines` | src/lua/vm.c:2114-2146 | Preserve mode starts a source line exactly where the text has a hard newline: the lines from one start to the next hold that source line, whole and in order, blank ones too; only an empty last source line is left out, exactly when it is not the only one and nothing is replayed on it. |
| `WrapSource.PreserveFrames` | src/lua/vm.c:1984-2020 | Every preserve-mode line starts with what is remembered of all that came before it, and ends, unless it is empty or the last one, with what switches that off. |
| `WrapSource.ClosedAlike` | src/lua/vm.c:1988-2006 | What switches off: SGR 24 while the flag is set, and an empty OSC 8 with the terminator that the open link has. |
| `WrapTheorems.PreserveFits` | src/lua/vm.c:2022-2146 | In preserve mode every line, measured again, fits or holds exactly one cluster of positive width, and every soft break was forced by the cluster after it. |
| `WrapTheorems.WordsKeepTokens` | src/lua/vm.c:2042-2317 | In word mode all escapes, and all clusters that do not start with a space or a tab, are in the lines in order. |
| `WrapTheorems.WordsFit` | src/lua/vm.c:2042-2317 | In word mode every line measures what the wrapper counted; it exceeds the target only as the leading whitespace of a source line or as a lone cluster, and no soft-wrapped line starts with whitespace. |
| `WrapLayout.WordsLaidOut` | src/lua/vm.c:2042-2317 | Every word-mode output follows a plan of the text's whole words: a run of whitespace is written in its full width between two words of a line, and dropped only at the end of a source line, at a soft break, or on a continuation that shows nothing yet; and every soft break is forced, since line, run and next word together, or the next cluster of a word that fits no line, exceed the target; so a word that fits a line is never split; the last line is left out only if it is empty and not the only one. |
| `WrapWidth.PreserveWidths` | src/lua/vm.c:2022-2146 | The same widths on tokens, for any list of tokens and any target. |
| `HttpQueue.StepConserves` | src/core/http_async.c:183-273 | Every critical section of either thread keeps delivered ++ held ++ linked equal to what was accepted. |
| `HttpQueue.StepBounded` | src/core/http_async.c:171-273 | Every critical section keeps the byte bounds. |
| `HttpQueue.RunInvariant` | src/core/http_async.c:183-542 | Both invariants hold in every state of every interleaving. |
| `HttpQueue.StreamConserved` | src/core/http_async.c:183-542 | In every interleaving: delivered, held and linked bytes are the accepted ones in order, also after a failed allocation on either side; and while nothing failed, accepted and in flight make up what was offered. |
| `HttpQueue.QueueBounded` | src/core/http_async.c:171-273 | In every interleaving: at most 64 MiB in total, no counter wraps, linked and reserved bytes never exceed the byte count plus 4 MiB, and without a re-queue they are at most 8 MiB. |
| `HttpQueue.AcceptedIff` | src/core/http_async.c:171-199 | In every interleaving: a chunk is taken if and only if no failure is latched, at most 64 MiB were offered in all and at most 4 MiB are queued with it; otherwise the callback ends short. |
| `HttpQueue.FailureHasCause` | src/core/http_async.c:160-199 | No callback ends short and no failure is latched unless an allocation failed, a size overflowed or a chunk was too much. |
| `HttpQueue.CauseIsFailure` | src/core/http_async.c:160-199 | After any such cause the failure is or will be latched, and the next callback ends short. |
| `HttpQueue.CountIsNotSize` | src/core/http_async.c:196-236 | A run in which a detach falls between reserving and linking, so that a linked chunk is not counted. |
| `HttpQueue.StepCounted` | src/core/http_async.c:183-273 | Every critical section keeps the count exact: bytes plus what was in flight at the last poll equal what is linked and reserved plus what was given up since. |
| `HttpQueue.CountExactly` | src/core/http_async.c:183-273 | In every interleaving the byte count is the size of the list and of the chunk in flight if and only if as much was given up since the last poll as was in flight then. |
| `HttpQueue.DoneIsFinal` | src/core/http_async.c:519-527 | Poll answers 2 only when the helper is done and everything accepted was delivered, and from then on it answers 2 and delivers nothing more. |
| `HttpQueue.DrainProgresses` | src/core/http_async.c:438-542 | Once the helper is done, every handed-out buffer brings the end nearer, even when joining keeps failing. |
| `HttpQueue.PollingEnds` | src/core/http_async.c:519-527 | Over any run: once the helper is done every poll answers 1 or 2, and at most as many answer 1 as bytes remain, so that a caller that keeps polling gets its 2. |
| `HttpQueue.FinishMeansComplete` | src/core/http_async.c:544-570 | If finish reports a status after a poll answered 2, everything offered was delivered. |
| `HttpQueue.StatusIffEnded` | src/core/http_async.c:544-570 | finish reports the status if and only if libcurl ended the transfer well, and -1 otherwise. |
| `HttpStream.Stream.ReserveLocked` | src/core/http_async.c:190-199 | First critical section: the chunk is counted if and only if no failure is latched, 64 MiB in total and 4 MiB in the queue are kept; else the failure is latched. |
| `HttpStream.Stream.LinkLocked` | src/core/http_async.c:216-224 | Second critical section: the node is the new last one of the linked list, and a list that the consumer has detached meanwhile stays a list of its own. |
| `HttpStream.Stream.Push` | src/core/http_async.c:183-225 | A whole push on the heap: it succeeds exactly for no bytes, or with memory, no failure latched and both limits kept, and then the data is the last chunk; else the failure is latched and the list is as it was. |
| `HttpStream.Stream.WriteCallback` | src/core/http_async.c:279-296 | A full count means the data is the last chunk and a short one that the failure is latched; with memory it is full exactly when no failure was latched and both limits are kept. |
| `HttpStream.Stream.CompleteLocked` | src/core/http_async.c:353-358 | The helper's completion step sets done and leaves the list alone. |
| `HttpStream.Stream.PollLocked` | src/core/http_async.c:496-527 | The critical section of poll takes the whole list, zeroes the byte count and answers 1 if there was a list, else 2 when done and 0 when not. |
| `HttpStream.Stream.RequeueFront` | src/core/http_async.c:253-269 | A detached list goes in front of what was linked meanwhile, tail and byte count included. |
| `HttpStream.Stream.ChunkListJoin` | src/core/http_async.c:438-482 | The joined buffer is the chunks in order; without memory the first chunk is handed out and the others are back in front. |
| `HttpStream.CopyList` | src/core/http_async.c:470-481 | The copying loop over the nodes yields the chunks in order. |
| `HttpStream.ListBytes` | src/core/http_async.c:453-455 | The summing loop gives the length of the joined chunks. |
| `HttpStream.LastNode` | src/core/http_async.c:260-262 | The walk ends at the last node. |
| `HttpStream.ProductFits` | src/core/http_async.c:282-286 | The division test lets no product through that does not fit a size. |
| `RenderModel.SanitisedStaysOnRow` | src/lua/vm.c:874-898 | A drawn line holds no line end, and a line without one is drawn as it is. |
| `Renderer.WriteFrameLineText` | src/lua/vm.c:874-898 | The chunked writer puts exactly the sanitised line on the row. |
| `Renderer.Renderer.CompareLines` | src/lua/vm.c:4501-4527 | Comparing in place leaves the cache equal to the new frame and marks exactly the lines that differ. |
| `Renderer.Renderer.Redraw` | src/lua/vm.c:4550-4587 | Old rows, changed or all lines, and the cursor: the terminal becomes what the model draws. |
| `Renderer.Renderer.RenderLines` | src/lua/vm.c:4450-4602 | After a call the terminal shows the entries of the table row by row and the cursor as asked, the cache holds the frame, and cache and terminal still agree. |
| `Renderer.Renderer.ClearRequest` | src/lua/vm.c:4398-4406 | A forced clear blanks the screen and empties the cache; any other changes nothing. |
| `RenderModel.RenderShows` | src/lua/vm.c:4550-4602 | From any cache that tells the truth, a render request leaves exactly its frame on the screen, however little it redraws. |
| `RenderModel.ApplyInSync` | src/lua/vm.c:4398-4602 | Every request keeps the cache true to the screen. |
| `RenderModel.RunInSync` | src/lua/vm.c:4398-4602 | The cache is true to the screen after any sequence of requests. |
| `RenderModel.LastFrameShown` | src/lua/vm.c:4450-4602 | After any requests, the screen shows the last frame at its viewport, blank rows elsewhere and the cursor as asked. |
| `RenderModel.DifferentialIsFull` | src/lua/vm.c:4550-4602 | Differential redraw equals a full redraw of the last frame on a blank terminal: every row, the visibility, and the cursor where it is visible. |
| `RenderFrame.TableShown` | src/lua/vm.c:4450-4602 | Whatever was asked before: row top + i shows the i-th entry up to its first NUL with line ends as spaces, nothing for what is no string, all other rows are blank, and the cursor stands where asked; numbers below one act as one, a cursor row beyond the end as the last. |
| `RenderFrame.SanitisedSplits` | src/lua/vm.c:874-898 | CR LF, a CR and an LF are drawn as one space each, everything else as it is. |
| `RenderFrame.ClearBlanks` | src/lua/vm.c:4398-4406 | After any requests, a forced clear leaves a blank screen and the cursor at home; any other changes nothing. |
| `RenderFrame.OnlyChangedRows` | src/lua/vm.c:4501-4587 | A frame of the same height at the same place, not forced, rewrites exactly the rows whose lines changed, once each, from top to bottom. |
| `RenderFrame.SameAgain` | src/lua/vm.c:4533-4550 | Asking for the same frame again, not forced, changes and writes nothing. |
| `StrBufs.StrBuf.Append` | src/core/process.c:101-139 | The bytes are appended and followed by a NUL; a larger allocation is made exactly when they do not fit, and its capacity is the old one, or 4096, doubled until they do. |
| `WinQuote.EscapedReadsBack` | src/core/process.c:494-525 | Inside quotes, 2n or 2n+1 backslashes before a quote are read as n, with or without the quote: the runtime reads the argument back. |
| `WinQuote.QuotedReadsBack` | src/core/process.c:484-526 | Quoted or not, an argument is read back as it was, and parsing stops right after it. |
| `WinQuote.RestReadsBack` | src/core/process.c:540-551 | From any argument on, the line parses to the remaining quoted arguments and then to whatever the verbatim tail parses to. |
| `WinQuote.ArgumentsReadBack` | src/core/process.c:540-551 | The line after the program name parses to exactly the arguments. |
| `WinQuote.TailParsesAlone` | src/core/process.c:540-551 | With a raw tail, the arguments before it come back and the tail parses on its own. |
| `WinQuote.CommandLineReadsBack` | src/core/process.c:484-560 | The whole line reads back if and only if the program name holds no quote and is not one that needs quotes and ends with a backslash; without a quote in it the arguments come back in any case. |
| `WinQuote.BackslashedNameDiffers` | src/core/process.c:519-525 | A name of a space and a backslash does not read back. |
| `WinProgram.StopsAfterIff` | src/core/process.c:484-526 | The runtime takes just what was written for a program name, whatever follows, if and only if its quotes come in pairs with no blank inside a pair. |
| `WinProgram.ArgumentsAfterName` | src/core/process.c:540-551 | After every such name, with quotes or without, the arguments come back. |
| `WinProgram.SteadyNames` | src/core/process.c:484-526 | There are such names with quotes, and names that are not such. |
| `WinQuoteLoops.ArgNeedsQuotes` | src/core/process.c:472-482 | The loop finds exactly the empty arguments and those with a byte up to space or a quote. |
| `WinQuoteLoops.AppendQuotedArg` | src/core/process.c:484-526 | The loops with their backslash counter append the quoted form. |
| `WinQuoteLoops.BuildCommandLine` | src/core/process.c:528-560 | The built line is its words with single spaces between, quoted up to the raw tail and verbatim from there, the program name overridden if asked; no program is an error. |
| `WinWords.EscapedForms` | src/core/process.c:494-525 | Escaping by the first byte that is no backslash: a quote is given a backslash and those before it are doubled, as are those at the end; all others stay. |
| `WinWords.QuotedForm` | src/core/process.c:472-526 | Quotes go around exactly the arguments that are empty or hold a blank, a control or a quote. |
| `WinWords.LineHasWords` | src/core/process.c:540-551 | The line is its words with single spaces between: arguments quoted, and verbatim from the raw tail on. |
| `Utf16.Utf8ToUtf16` | src/core/process.c:569-629 | The loop fills the buffer of one unit per byte and a terminator with exactly the specified units, and never overruns it. |
| `Utf16.ReadScalar` | src/core/process.c:582-617 | The branches of the loop read one code point, or U+FFFD for malformed, overlong and surrogate forms. |
| `Utf16.ToUtf16Decodes` | src/core/process.c:569-629 | The output decodes, by section 2.2 of RFC 2781, to the scalars read: no lone surrogate for any byte string. |
| `Utf16.NeverLonger` | src/core/process.c:569-629 | There are never more units than bytes. |
| `Utf16.EncodingCarriesOver` | src/core/process.c:569-629 | UTF-8 by section 3 of RFC 3629 becomes the UTF-16 of section 2.1 of RFC 2781 of the same scalars. |
| `Utf16.ReplacedIffMalformed` | src/core/process.c:566-617 | A string is converted without U+FFFD if and only if it is the well-formed encoding of scalars other than U+FFFD, and then it can be recovered. |
| `Utf16.FrontExactly` | src/core/process.c:582-617 | What comes first is the scalar encoded there, or U+FFFD if none is; it takes the bytes that its first byte announces if they are continuation bytes, and otherwise one. |
| `Capture.DrainCaptures` | src/core/process.c:1153-1221 | A drain hands out the bytes of its reads in order and retains them up to the limit. |
| `Capture.PollCaptures` | src/core/process.c:1136-1274 | One poll hands out exactly the bytes it read, in whichever way it ends. |
| `Capture.RunCaptures` | src/core/process.c:1136-1274 | Over any run and any answers of the system: the chunks make up all bytes read, the retained output is their first 262144 bytes, and truncated is set exactly when there were more. |
| `Capture.WaitingBounded` | src/core/process.c:1245-1263 | The waiting charged never exceeds the timeout, and a poll that gives up has used all of it. |
| `PollOutcome.PollEnds` | src/core/process.c:1145-1273 | Every poll has a first turn that ends it: a read that is not a later, a child that is gone, an abort, or a timeout used up at 20 ms a turn. |
| `PollOutcome.PollDecided` | src/core/process.c:1145-1273 | That turn decides: 1 with a chunk that is not empty if and only if it reads bytes; 2 if and only if it reads the end or an error, or nothing from a child that is gone or aborted, and eof is noted exactly then; else 0, with the timeout used up. It also decides abort flag, signals, wait status and waiting. |
| `PollOutcome.OutputMissed` | src/core/process.c:1230-1236 | A poll that finds nothing to read and the child gone answers 2 although the next read would have brought bytes. |
| `PollOutcome.ChunkTakes` | src/core/process.c:1153-1221 | The chunk is what all reads from that turn on bring, up to the first that brings nothing or the first that makes it 65536 bytes or more. |
| `PollOutcome.WriteDecided` | src/core/process.c:882-909 | A write is done exactly when the accepted counts reach the length before a try ends it; a new abort sends SIGTERM and is an error, as are a failure and a try that takes nothing. |
| `Process.ProcessHandle.Retain` | src/core/process.c:1181-1197 | A piece is retained up to 262144 bytes and the flag set when some of it is dropped. |
| `Process.ProcessHandle.DrainPipe` | src/core/process.c:1153-1221 | The drain loop fits its one allocation and does what the model does. |
| `Process.ProcessHandle.PollPipe` | src/core/process.c:1136-1274 | The poll loop refines the model on every schedule: handle, answer code, chunk, reads and waiting. |
| `Process.ProcessHandle.WriteAll` | src/core/process.c:882-909 | The write loop refines the model; an abort seen before a try ends it with an error. |
| `Process.ProcessHandle.TryToWrite` | src/core/process.c:938-982 | A single try to write: when it succeeds, how many bytes it took, and that it sees a new abort. |
| `Process.ProcessHandle.FinishChild` | src/core/process.c:1364-1458 | The last wait, the exit status and the retained output, against the model. |
| `Abort.RunAsksOnce` | src/core/process.c:880-1268 | Polls and writes together send one SIGTERM if the handle is aborted and no signal otherwise. |
| `Abort.WaitLasts` | src/core/process.c:1389-1426 | The last wait ends when the child is gone, or in turn 76, or in the turn of the abort if that is later: exactly, for every schedule. |
| `Abort.WaitSends` | src/core/process.c:1401-1409 | The signals of the last wait, exactly: SIGTERM in the turn of a new abort, SIGKILL in turn 26 or the turn of the abort if later, each only while the child runs. |
| `Abort.AtMostOneOfEach` | src/core/process.c:1136-1426 | Over a whole run without explicit terminate: no signal without an abort, else one SIGTERM and after it at most one SIGKILL. |
| `Abort.AbortedWaitEnds` | src/core/process.c:1389-1426 | A wait that sees the abort by turn a is over by turn 76 or turn a, whichever is later. |
| `Abort.UnabortedWaitLasts` | src/core/process.c:1389-1426 | Without an abort the wait lasts as long as the child and sends nothing. |
| `Abort.WaitReports` | src/core/process.c:1392-1400 | A wait that ends without an abort leaves the status that the child gave when it went. |
| `Abort.StatusTellsAbort` | src/core/process.c:1136-1439 | Over a whole run, once finish returns: the status is 130 if and only if SIGTERM was sent before the wait, or the wait saw the abort before the child was gone, or the child exited with 130 or was killed by SIGINT. |
| `Abort.StatusReported` | src/core/process.c:1429-1439 | The status in full: 130 once aborted, else the exit code, 128 more than the signal, or -1 when nothing is known. |
| `Abort.FinishSends` | src/core/process.c:1401-1409 | finish sends SIGTERM if it sees the abort before the child is gone, and SIGKILL if the child is still there in turn 26 and in the turn of the abort. |
| `Abort.KilledAtOnce` | src/core/process.c:1401-1409 | An abort first seen in turn 26 or later sends SIGTERM and SIGKILL in the same turn. |
| `Abort.StatusIsAmbiguous` | src/core/process.c:1429-1439 | A run without an abort whose status is 130. |
| `JsonRoundTrip.RoundTrip` | src/lua/vm.c:396-626 | Encoding what was decoded in preserve mode gives the tree with each repeated key at its first place with its last value, if that tree is at most as deep as the limit, and nothing otherwise. |
| `JsonRoundTrip.DuplicateFreeRoundTrip` | src/lua/vm.c:396-626 | A tree without repeated keys comes back exactly (order, nulls, empty arrays and empty objects) if and only if it is at most 1000 deep, counting leaves. |
| `JsonRoundTrip.NothingToCollapse` | src/lua/vm.c:412-420 | Without repeated keys there is nothing to collapse. |
| `JsonRoundTrip.SlotsOfObject` | src/lua/vm.c:572-621 | For a decoded object the key order alone decides which members are encoded, whatever order the traversal has. |
| `JsonStands.DecodeStands` | src/lua/vm.c:396-470 | What stands in the heap for any tree, in both modes: whole numbers of 64 bits as integers and others as floats, nulls as the mark or as nothing, arrays at 1 to n with their tag, objects with the last value of each key, and with tag and key order in preserve mode. |
| `JsonStands.LeavesEncoded` | src/lua/vm.c:516-540 | What is no table is encoded at any depth but zero: strings up to their first NUL, numbers of both kinds as numbers, nil and the null mark as null. |
| `JsonStands.SlotsExactly` | src/lua/vm.c:572-621 | The members taken from any table, each key once: first the fields that the key order names and that are there, then the string keys that the traversal meets besides, but no metadata. |
| `Json.EncodeTable` | src/lua/vm.c:541-623 | A table is encoded exactly when all its children are, one level down. |
| `JsonGraph.TableIsArray` | src/lua/vm.c:472-514 | The counting test decides the tag, and without one whether the keys are exactly 1 to n for a positive n. |
| `JsonGraph.ArrayExactly` | src/lua/vm.c:493-513 | The counting argument: no string key, n keys, and 1 to n present, if and only if the key set is {1..n}. |
| `JsonGraph.RejectedIffDeep` | src/lua/vm.c:516-622 | On any table graph, a value is rejected at a depth if and only if a path of that many encoded edges leads down from it. |
| `JsonGraph.CycleRejected` | src/lua/vm.c:521-524 | A value that reaches a cycle through encoded edges is rejected at every depth. |
| `JsonPlain.SlotsOfPlain` | src/lua/vm.c:604-620 | Of any object decoded without preserve, exactly the keys are encoded whose last value is not null, without __kind and __jsontype, each once. |
| `JsonPlain.PlainImage` | src/lua/vm.c:396-626 | Outside preserve mode, every tree that is not too deep comes back, and what comes back keeps exactly those keys of every object with the images of their last values, in some order, and all items of every array without nulls. |
| `FileSlice.ReadFileSlice` | src/lua/vm.c:2589-2739 | However the file arrives in blocks, the result is the slice of the whole, with negative offsets as 0, limits below 1 as 1 and byte limits out of range as 262144; nothing if reading failed. |
| `FileSlice.ReadBlock` | src/lua/vm.c:2646-2697 | One block, span by span: the buffer holds what is picked of everything seen, and the line number counts its newlines. |
| `FileSlice.SliceBuffer.Take` | src/lua/vm.c:2657-2690 | A span is taken as far as it fits; the flag says whether more was wanted. |
| `FileSlice.SliceBuffer.Grow` | src/lua/vm.c:2668-2687 | The capacity is doubled until it suffices, but never past the limit and a terminator, and the contents stay. |
| `FileSlice.SpanLength` | src/lua/vm.c:2651-2653 | A span ends with the first newline or with the block. |
| `FileSlice.PickedIsWanted` | src/lua/vm.c:2657-2696 | Picking bytes by counting newlines yields the lines offset to offset + limit, and counting newlines counts lines. |
| `FileSlice.LinesJoin` | src/lua/vm.c:2646-2697 | The lines make up the file. |
| `FileSlice.SliceMeans` | src/lua/vm.c:2646-2739 | By the file alone: the wanted lines, cut at the byte limit, lose their trailing newlines and nothing else; all lines are counted; the next offset is given exactly when lines are left, and both flags say what was left out. |
| `FileSlice.LinesExactly` | src/lua/vm.c:2646-2697 | Lines are not empty, hold a newline only at their end, and only the last may lack one. |
| `FileSlice.LinesUnique` | src/lua/vm.c:2646-2697 | A file has only one such list of lines. |
| `FileSlice.ChoppedArrives` | src/lua/vm.c:2638-2701 | Any file arrives whole in the blocks that full reads cut it into. |
| `FileSlice.AllArrives` | src/lua/vm.c:2699-2701 | When only the last block is short, everything arrives. |
| `FileSlice.NextSliceContinues` | src/lua/vm.c:2725-2728 | Neighbouring windows join without a gap or an overlap, so next_offset walks through the file. |
| `TokenIndex.Session.Append` | src/core/session.c:154-215 | The message is the last one, across reallocations, and every entry of the index is still the sum before it modulo the size. |
| `TokenIndex.Session.Reserve` | src/core/session.c:159-202 | Both arrays move to twice the room, at first 8, and keep their contents, or nothing changes when the room could not be counted. |
| `TokenIndex.Session.Clear` | src/core/session.c:88-102 | Clearing empties messages and index. |
| `TokenIndex.Session.TokenEstimateFrom` | src/core/session.c:259-267 | The difference of two entries is the sum of the estimates from there on, modulo the size even after it wrapped. |
| `TokenIndex.Session.KeepRecent` | src/core/session.c:269-297 | The binary search returns what the walk back from the end returns, if the sum fits; all messages whenever the total, wrapped or not, is within the target; and at least one and at most all in any case. |
| `TokenIndex.WalkBack` | lua/psi/context.lua:243-262 | The fallback loop computes the recursive walk. |
| `TokenIndex.WalkKeepsLargest` | lua/psi/context.lua:248-261 | The walk keeps the largest suffix within the target, but at least one message. |
| `TokenIndex.OnlyLargest` | src/core/session.c:280-296 | Only one count is the largest suffix within the target. |
| `TokenIndex.LeastIsLargest` | src/core/session.c:282-296 | The least prefix that reaches the threshold leaves the largest suffix that fits. |
| `TokenIndex.RangeBySubtraction` | src/core/session.c:266-266 | Subtracting two wrapped entries gives the sum between them, modulo the size. |
| `TokenIndex.NegativeTargets` | src/lua/vm.c:4206-4219 | For a negative target, which the binding takes for zero, index and walk agree if and only if the last two messages do not both count nothing. |
| `TokenIndex.NegativeTargetDiffers` | src/lua/vm.c:4206-4219 | Two messages that count nothing and a target of minus one: index and walk differ. |
| `TokenIndex.TargetsAgree` | src/lua/vm.c:4216-4217 | Any other target is passed on as it is. |
| `TokenIndex.WrapDecides` | src/core/session.c:278-280 | Where the total, wrapped or not, is within the target, keeping everything is what the walk does if and only if the sum did not wrap. |
| `TokenIndex.WrappedIndexKeepsTooMuch` | src/lua/vm.c:3666-3679 | Three estimates that the binding can pass whose sum wraps to one: for a target of one the index keeps all three, the walk one. |
| `TokenIndex.Calibrated` | src/core/session.c:22-33 | The calibrated estimate is 1.105 times the estimate, rounded up, unless that would overflow. |
| `Base64.Encode` | lua/psi/base64.lua:19-40 | The table-driven encoder gives the encoding of section 4 of RFC 4648, of length 4*ceil(n/3), and the standard decoder recovers the input. |
| `Base64.PairTable` | lua/psi/base64.lua:14-17 | The pair table holds the two digits of every 12-bit value. |
| `Base64.AlphabetDigits` | lua/psi/base64.lua:5-12 | The alphabet string is the digit of every 6-bit value, range by range. |
| `Base64.RoundTrip` | lua/psi/base64.lua:19-40 | Decoding with padding checks gives back every byte string. |
| `Base64.StandardExamples` | lua/psi/base64.lua:19-40 | Examples of section 10 of RFC 4648. |
| `Base64.EncodedLength` | lua/psi/base64.lua:19-40 | The encoding is 4*ceil(n/3) characters long. |

## Left out

- The Unicode width table and the Indic ranges are uninterpreted functions, with only the printable ASCII width and the range guards of the code fixed.
- Integer widths: counters of the text pipeline, SGR values and JSON integers are unbounded here; the `(int)` casts of widths, `int` overflow in a parameter of many digits, and the cast of exactly 2^63 to a Lua integer are not modelled.
- Allocation failures, except where the stream's producer or its join runs out of memory.
- WrapTheorems.WordsKeepStyle: for texts in which no cluster that is drawn as it stands ends with an ESC; WrapSwallow.KeepsWordsIff shows cluster by cluster that this is the condition.
- WrapTheorems.WordsFit: under Glue.TableFacts, as WrapTheorems.WordsKeepTokens and WrapTheorems.WordsKeepStyle; with another width table, dropping a space could join two clusters.
- WrapClean.LinesEndClean: the last line is not closed by the code and the lemma does not speak of it.
- Only SGR and OSC 8 change a style; `m` sequences with colons, private markers or intermediates change nothing on the modelled terminal.
- TUI text helpers that only strip, pad or measure; key decoding, raw mode, cursor and frame commands that bypass the renderer, and other writers to the terminal.
- Line texts that overflow their row or the terminal's height, and what the cursor does while text is being written.
- curl itself, TLS, condition waits and thread creation: a poll is one critical section, a write callback is called with complete data, and at most one consumer exists. A poll that does not ask for the chunk throws it away and is not modelled.
- fork, exec, CreateProcess, file descriptors and signal delivery: reads, writes and waits answer as a schedule says. The Cosmopolitan path on Windows, explicit terminate, and a poll that does not ask for the chunk are not modelled.
- Abort.AbortedWaitEnds: the final blocking wait for the child is assumed to return.
- WinQuote.CommandLineReadsBack: a raw tail at the program name is not considered. WinProgram.ArgumentsAfterName: that no other program name lets the arguments come back, by chance, is not claimed.
- C strings end at a NUL; where the code takes C strings the model takes byte strings, and their lengths stand for strlen.
- JsonRoundTrip.RoundTrip: numbers are reals; that integers beyond 2^53 are rounded on encoding does not arise for decoded ones. cJSON's parser and printer, and `__index` metamethods, are not part of this model.
- JsonPlain.PlainImage: of arrays with nulls only that they stay arrays, because their length is any border of the table.
- JsonGraph.RejectedIffDeep: a traversal is any fixed order of the keys; encoding does not change the tables.
- FileSlice.ReadFileSlice: `fread` is a list of blocks of at most 8192 bytes, of which those after a short one are never asked for.
- TokenIndex.Session.KeepRecent: of a sum that wrapped to a total above the target only that at least one message and at most all are kept; session and walk use the same estimates; the Lua side computes its own from text and data.
- Session ids, paths and roles, JSONL files, the other file primitives, credentials, routing, the clipboard and the scheduler: thin, or easy.
- POSIX single-quote escaping, an easier sibling of the Windows quoting.
