# SCPI message engine of the RDE board: model and proofs

A Dafny model of the part of the firmware that reads, understands and answers
SCPI commands, and of the board code that gives those commands their meaning.
The C code is followed function by function, with its branches, constants,
orders of writes and error cases; the programs (methods) are proved against
specification functions, and the lemmas say what those functions mean.

## What is modelled

| file | subject |
|---|---|
| `basics.dfy` | a few words shared by the other modules |
| `lexer.dfy` | the scanner: every skip and token function over a shared buffer |
| `lexer_grammar.dfy` | texts of the IEEE 488.2 syntax are the tokens they should be |
| `program_units.dfy` | one parameter, all parameters, one program message unit |
| `lexer_stability.dfy`, `unit_stability.dfy` | scanning a text that ends earlier: lines cut from the input buffer, parameters scanned a second time, chunked input |
| `command_match.dfy`, `command_choice.dfy`, `command_case.dfy`, `command_table.dfy` | the command matcher, what optional keywords and the case of letters mean, and the board's table |
| `parser.dfy` | input buffer, line by line parsing, composition of compound headers in place, dispatch |
| `line_ends.dfy`, `tree_walk.dfy` | units, lines and messages built by the rules: what is detected, what ends them, and what they call |
| `parameters.dfy` | the second pass over parameters, command callbacks, copying text out of a parameter |
| `integer_text.dfy`, `quoted_text.dfy`, `block_text.dfy` | printed integers, quoted text and blocks, and what the scanner makes of them |
| `responses.dfy` | the response writers, including the limited error description |
| `circular.dfy`, `heap.dfy` | the ring heap of error texts |
| `fifo.dfy`, `registers.dfy`, `error_queue.dfy` | ring buffer of errors, status registers, and the error queue that joins them with the heap and the indicator |
| `status_bits.dfy`, `error_reports.dfy` | the registers bit by bit, and the answers to SYSTem:ERRor? written out |
| `fram_blocks.dfy`, `fram_store.dfy`, `fram_copies.dfy`, `fram_device.dfy` | mirrored blocks in the FRAM, byte by byte, with power failing after any of them |
| `relay_state.dfy`, `relay_steps.dfy`, `relay_control.dfy` | relay decade driver, raw relay access, what each command does to the report and to every relay, calibrated total |
| `expression_lists.dfy` | indexed access to numeric and channel lists |
| `mdns.dfy` | the question parser of the mDNS responder |

Two conventions run through the files. A C pointer into a buffer is an index,
so a pointer with a length is a window of a text. Where a property is about
runs, the program is first shown to do what a step function on values does
(`Written`, `Step`, `Run`, `Cut`, ...), and the property is then proved of that
function over all sequences of steps.

## Main results

* Syntax: headers, names, decimal numbers (either exponent mark, blanks around it)
  and suffixes built by the rules of IEEE 488.2 are scanned as one token that is
  all of them
  (`LexerGrammar.CompoundHeaderLexed`, `LexerGrammar.RealLexed`,
  `LexerGrammar.SuffixedLexed`).
* Units and lines: every unit of a header and parameters is detected whole and
  ended by a line feed, a carriage return, both together, a semicolon or the end
  (`LineEnds.UnitDetected`), and its command is called with its parameters
  (`LineEnds.LineCalls`); line feeds may get carriage returns without a difference
  to what is called (`LineEnds.CrLfStream`).
* Lines: for arbitrary bytes the slice `SCPI_Input` hands to `SCPI_Parse` is
  re-scanned into the same units (`UnitStability.RescanAgrees`); without
  carriage returns, quotes and blocks, chunking is irrelevant
  (`UnitStability.ChunkingIrrelevant`, `Parser.Context.InputAll`).
* Headers: composition by overwriting earlier bytes looks every header up under the
  name the tree walk gives it, if and only if every relative header still finds
  its path in the buffer (`Parser.LookupsExact`, `Parser.LineComposed`), as it does
  when all headers are found (`Parser.FoundLine`); what one undefined header does
  to the path is `Parser.UndefinedHeaderDamage`.  On keywords, a message of any
  units calls its completed headers in order (`TreeWalk.MessageCalls`).
* Matching: keywords match in their long and their short form in any case, and
  nothing else (`CommandCase.KeywordForms`, `CommandCase.AcceptsAnyCase`); the
  matcher accepts what the left-to-right rule accepts
  (`CommandMatch.MatchCommand`); that is "some choice of optional keywords" for
  every command, if and only if no optional keyword shares a word with the first
  mandatory one behind it (`CommandChoice.ChoiceExactly`); no command is accepted
  by two rows of the board's table (`CommandTable.Unambiguous`,
  `CommandTable.BoardDispatch`).
* Two passes: the second pass over the parameters agrees with the first if and
  only if the measured text reaches the last token
  (`Parameters.TwoPassesAgree`), which a blank after a plain number breaks
  (`Parameters.BlankExample`).
* Round trips: integers in four bases at two widths, quoted text, blocks, numeric
  and channel lists; error responses exactly if the kept part of the description
  is 7-bit (`Responses.ErrorLexed`).
* Errors: the ring heap is a deque of texts; over every run of pushes, reads,
  `*CLS` and register writes the queue is bounded, its texts are the stored
  ones, STB.QMA and the indicator tell the truth, and the reports are those of
  the queue (`ErrorQueue.ErrorContext.ExecuteAll`, `ErrorQueue.RunOk`,
  `ErrorQueue.ClsClears`, and from start-up `ErrorQueue.RunFromReset` and
  `ErrorQueue.ExecuteFromStart`).
* Error answers: from reset, errors are read in the order they were pushed, each
  with its number, standard text and own information (`ErrorReports.ReportsInOrder`).
* Summaries: over every run the ESR, OPERation and QUEStionable summary bits agree
  with their events and enables throughout, if and only if no write to an enable
  register changes whether an enabled event is pending
  (`StatusRegisters.SummaryWrite`, `ErrorQueue.SummaryOverRun`).
* Power failure: whatever the FRAM held and whatever byte a save is cut at, the
  old or the new structure is loaded, if and only if the backup offers one of
  the two or the primary cannot be torn (`FramBlocks.SaveIsAtomic`,
  `FramStore.NetSaveAtomic`, `FramStore.CalSaveAtomic`), which a completed save
  ensures for the next (`FramStore.SaveReadsBack`); starting is safe however
  often it is interrupted (`FramBlocks.StartsKeep`, `FramStore.StartIsSafe`).
  What a start loads and repairs is stated on the bytes of the two copies
  (`FramCopies.LoadsIntact`, `FramCopies.StartRepairs`).
* Relays: over every run CONNECT and SHORT are never both closed, and exactly when
  the relays realise the reported resistance in the end is known from the last
  command that sets it or is a RELay:RAW (`RelayState.RunExactly`,
  `RelayState.RunFromStart`, `RelayControl.RunDriver`); so is exactly when the
  resistance is unknown (`RelaySteps.UnknownExactly`).
* mDNS: a query with names of any length is answered if and only if some question
  asks for the service and every name before it fits the name buffer or can be
  passed (`Mdns.QueryAnswered`).

## Where the code does less than its comments or its users may expect

The model follows the code.

* `error.c:159-169` has a row for the device codes 1 to 32767, but its bounds
  are the wrong way round, so no positive code sets an event bit
  (`ErrorQueue.ClassTable`).
* `scpi_def.c:271-274` and the header of `relay_ctrl.c` say that switching the
  output off shorts the terminals; `relay_set_output(false)` opens CONNECT and
  leaves SHORT as it was (`RelayState.OutputOffStep`), so from a connected output
  that follows a known resistance the terminals are shorted only at zero ohms
  (`RelayState.OffShorts`, `RelayState.OffExample`).
* `RELay:RAW` writes the relays but leaves the reported resistance as it was
  (`RelayState.RawReports`, `RelayState.RawExample`); only `relay_set_bit` marks it as unknown, although
  the comment in `relay_cal.c:158-160` speaks of raw access in general.
* A start repairs the primary from the backup but never the backup: one that an
  interrupted save tore stays torn while the primary is usable
  (`FramBlocks.TornBackupLoses`), and one that it left old can come back
  (`FramBlocks.StaleBackupReturns`).
* A start takes a refused read for a bad block: two of them overwrite two good
  copies with the defaults (`FramStore.RefusedReadsLose`, `FramStore.RefusedStart`).
* An undefined header can damage the path later headers inherit: of A:B:C;X;Y the
  header Y is looked up as A:A:Y (`Parser.UndefinedHeaderExample`).
* An optional keyword takes a word the mandatory one behind it needs: [:A]:A does
  not accept A (`CommandChoice.OverlapExample`); the board's table has no such row
  (`CommandTable.RowByChoice`).
* The name buffer of the mDNS parser holds 63 characters, where section 2.3.4 of
  RFC 1035 allows 255; of a longer name every further byte is taken for a label
  length, which can make it give up the query (`Mdns.LongNameHides`,
  `Mdns.LongNameExample`).  Pointers (section 4.1.4) are passed, not followed
  (`Mdns.CompressedExample`).
* Writing an enable register does not refresh the summary bit in the status
  byte (`ieee488.c:234-237`): an event recorded while disabled and enabled
  afterwards is not summarised (`StatusRegisters.StaleSummaryExample`); exactly
  which writes do this is `StatusRegisters.SummaryWrite`.
* The information of an error takes the bytes of an undefined command as they are
  (`Responses.UndefinedBlock`); a byte that is not 7-bit makes the description
  that `SYSTem:ERRor?` writes no string at all (`Responses.ErrorLexed`).

## Model

| member | source | states |
|---|---|---|
| `Lexer.LexState.SkipWhile` | `firmware/RDE_soft/App/libscpi/src/lexer.c:171-179` | the cursor ends behind the longest run of a character class and the run is counted: the shape of skipWs, skipNumbers, skipAlpha and the three digit skippers |
| `Lexer.LexState.SkipOne` | `firmware/RDE_soft/App/libscpi/src/lexer.c:192-199` | at most one character of a class is passed, and the result says whether it was |
| `Lexer.LexState.SkipChr` | `firmware/RDE_soft/App/libscpi/src/lexer.c:249-256` | exactly the given character is passed, never beyond the end |
| `Lexer.LexState.SkipProgramMnemonic` | `firmware/RDE_soft/App/libscpi/src/lexer.c:307-321` | the whole mnemonic is passed; the length is negated when it runs into the end of the text |
| `Lexer.LexState.WhiteSpace` | `firmware/RDE_soft/App/libscpi/src/lexer.c:331-345` | token, cursor and length are those of the run of blanks |
| `Lexer.LexState.SkipCommonProgramHeader` | `firmware/RDE_soft/App/libscpi/src/lexer.c:354-369` | 0 without a star, -1 for a lone star, 1 with the cursor behind the mnemonic |
| `Lexer.LexState.SkipCompoundTail` | `firmware/RDE_soft/App/libscpi/src/lexer.c:376-398` | the loop over `:mnemonic` stops exactly where the header ends, and reports a dangling colon |
| `Lexer.LexState.SkipCompoundProgramHeader` | `firmware/RDE_soft/App/libscpi/src/lexer.c:376-398` | whether there is a compound header and where it ends, with or without a leading colon |
| `Lexer.LexState.ProgramHeader` | `firmware/RDE_soft/App/libscpi/src/lexer.c:406-442` | kind, extent and cursor of the header of section 7.6.1, with rollback when there is none |
| `Lexer.LexState.CharacterProgramData` | `firmware/RDE_soft/App/libscpi/src/lexer.c:452-470` | the token is the longest mnemonic at the cursor, or nothing is passed |
| `Lexer.LexState.SkipMantisa` | `firmware/RDE_soft/App/libscpi/src/lexer.c:473-485` | the end of the mantissa and how many digits it has, before and after the point |
| `Lexer.LexState.SkipExponent` | `firmware/RDE_soft/App/libscpi/src/lexer.c:487-501` | an exponent counts only with digits; blanks and a sign inside it are passed |
| `Lexer.LexState.DecimalNumericProgramData` | `firmware/RDE_soft/App/libscpi/src/lexer.c:509-531` | the longest number with its optional exponent is one token; an exponent without digits is given back |
| `Lexer.LexState.SkipSuffixTail` | `firmware/RDE_soft/App/libscpi/src/lexer.c:534-561` | the loop over further suffix units ends behind the last of them |
| `Lexer.LexState.SuffixProgramData` | `firmware/RDE_soft/App/libscpi/src/lexer.c:534-561` | the token is the suffix unit with its powers and further units |
| `Lexer.LexState.NondecimalNumericData` | `firmware/RDE_soft/App/libscpi/src/lexer.c:597-627` | the token is exactly the digits behind #H, #Q or #B; without digits everything is rolled back |
| `Lexer.LexState.SkipQuoteProgramData` | `firmware/RDE_soft/App/libscpi/src/lexer.c:634-650` | the scan stops at the closing quote, a character that is not 7-bit or the end, and steps over doubled quotes |
| `Lexer.LexState.StringProgramData` | `firmware/RDE_soft/App/libscpi/src/lexer.c:666-705` | the token is the string with both quotes; an unfinished string is rolled back |
| `Lexer.LexState.BlockLength` | `firmware/RDE_soft/App/libscpi/src/lexer.c:718-774` | the digit loop reads as many length digits as there are, at most n, and their value |
| `Lexer.LexState.ArbitraryBlockProgramData` | `firmware/RDE_soft/App/libscpi/src/lexer.c:718-774` | the token is the payload; a block that is only incomplete moves the cursor to the end, a malformed one rolls back |
| `Lexer.LexState.ProgramExpression` | `firmware/RDE_soft/App/libscpi/src/lexer.c:806-830` | the token is the parenthesised expression, or nothing is passed; without a parenthesis a length the caller left in the token becomes a token |
| `Lexer.LexState.Character` | `firmware/RDE_soft/App/libscpi/src/lexer.c:838-910` | comma, semicolon, colon and specific character: one token of length 1 or none |
| `Lexer.LexState.NewLine` | `firmware/RDE_soft/App/libscpi/src/lexer.c:918-935` | an optional carriage return and an optional line feed are one token |
| `Lexer.SpanRun` | `firmware/RDE_soft/App/libscpi/src/lexer.c:171-179` | a skipped run consists of characters of the class and is maximal |
| `LexerGrammar.CompoundHeaderLexed` | `firmware/RDE_soft/App/libscpi/src/lexer.c:376-442` | every compound header of section 7.6.1, absolute or relative, command or query, is one token of its kind that is all of it |
| `LexerGrammar.CommonHeaderLexed` | `firmware/RDE_soft/App/libscpi/src/lexer.c:354-442` | so is every common command and query header |
| `LexerGrammar.CompoundHeaderIsPath` | `firmware/RDE_soft/App/libscpi/src/lexer.c:376-442` | conversely every compound header token is a path of mnemonics with at most one leading colon and a query mark |
| `LexerGrammar.CommonHeaderIsMnemonic` | `firmware/RDE_soft/App/libscpi/src/lexer.c:354-442` | and every common header token is a star, a mnemonic and a query mark |
| `LexerGrammar.CharacterDataLexed` | `firmware/RDE_soft/App/libscpi/src/lexer.c:452-470` | every mnemonic that ends the parameter is the whole parameter, section 7.7.1 |
| `LexerGrammar.RealRead` | `firmware/RDE_soft/App/libscpi/src/lexer.c:473-531` | every decimal number with its fraction and exponent, the mark E or e with blanks before and after it, is one number token |
| `LexerGrammar.RealLexed` | `firmware/RDE_soft/App/libscpi/src/parser.c:1360-1390` | and, where it ends the parameter, the whole parameter without suffix, section 7.7.2 |
| `LexerGrammar.SuffixRead` | `firmware/RDE_soft/App/libscpi/src/lexer.c:534-561` | every suffix of units, powers, slashes and dots is passed whole, section 7.7.3 |
| `LexerGrammar.SuffixNotExponent` | `firmware/RDE_soft/App/libscpi/src/lexer.c:514-522` | a suffix is not taken for an exponent unless it is a lone E before a digit |
| `LexerGrammar.SuffixedLexed` | `firmware/RDE_soft/App/libscpi/src/parser.c:1372-1381` | a number, blanks and such a suffix are one parameter that is all of it |
| `LexerGrammar.NondecimalRead` | `firmware/RDE_soft/App/libscpi/src/lexer.c:597-627` | every hexadecimal, octal or binary number, its letter and digits in either case, is the whole parameter, section 7.7.4; its token is the digits |
| `ProgramUnits.ParseProgramData` | `firmware/RDE_soft/App/libscpi/src/parser.c:1360-1390` | one parameter with the blanks around it: token, cursor and the length the C code returns |
| `ProgramUnits.ParseDataItem` | `firmware/RDE_soft/App/libscpi/src/parser.c:1370-1385` | the recognisers are tried in the order of the C code, the first hit wins |
| `ProgramUnits.ParseNumber` | `firmware/RDE_soft/App/libscpi/src/parser.c:1372-1381` | a suffix extends the number over the blanks between; blanks without a suffix are passed but not counted |
| `ProgramUnits.ParseAllProgramData` | `firmware/RDE_soft/App/libscpi/src/parser.c:1399-1429` | summed length, parameter count and cursor of the comma-separated parameters, or the failure values |
| `ProgramUnits.DetectProgramMessageUnit` | `firmware/RDE_soft/App/libscpi/src/parser.c:1438-1482` | header, data, parameter count, termination and length of the next unit, including the invalid-character case |
| `LexerStability.HeaderCut` | `firmware/RDE_soft/App/libscpi/src/lexer.c:406-442` | a header that ends inside a shorter text is the same header there |
| `LexerStability.StringCut` | `firmware/RDE_soft/App/libscpi/src/lexer.c:666-705` | a string token found in the shorter text is the one of the longer text, and a cut string is no token |
| `LexerStability.BlockCut` | `firmware/RDE_soft/App/libscpi/src/lexer.c:718-774` | a block inside the shorter text is the same block; an incomplete one stays incomplete at a line end |
| `LexerStability.ItemHitCut` | `firmware/RDE_soft/App/libscpi/src/parser.c:1360-1390` | a parameter whose token lies inside a shorter text is read the same there, the cursor cut to its end |
| `LexerStability.ItemMissCut` | `firmware/RDE_soft/App/libscpi/src/parser.c:1360-1390` | text that is no parameter is none either when the text ends at a line end |
| `UnitStability.DetectLineCut` | `firmware/RDE_soft/App/libscpi/src/parser.c:209-213` | detection on a text cut behind a line end finds the same unit: headers, data, counts, termination |
| `UnitStability.RescanAgrees` | `firmware/RDE_soft/App/libscpi/src/parser.c:341-354` | for arbitrary bytes, the slice handed to SCPI_Parse breaks into exactly the units SCPI_Input scanned in the longer buffer |
| `UnitStability.DetectStop` | `firmware/RDE_soft/App/libscpi/src/parser.c:1438-1482` | without quotes and blocks a unit never passes a line end without reporting it, and then takes exactly a line feed, a carriage return, or both together |
| `UnitStability.PlainScan` | `firmware/RDE_soft/App/libscpi/src/parser.c:341-354` | so the scanned line ends exactly at the next line end |
| `UnitStability.PlainFeed` | `firmware/RDE_soft/App/libscpi/src/parser.c:341-354` | where every carriage return has its line feed, the slices handed on are exactly the lines, and the unterminated tail stays |
| `UnitStability.LinesConcat` | `firmware/RDE_soft/App/libscpi/src/parser.c:337-354` | lines and tail of a concatenation follow from those of its first part and the rest |
| `UnitStability.ChunkingIrrelevant` | `firmware/RDE_soft/App/libscpi/src/parser.c:316-359` | however such a stream is split into chunks, the slices handed on are the lines of the whole stream |
| `LineEnds.UnitBodyEnds` | `firmware/RDE_soft/App/libscpi/src/parser.c:1438-1482` | header and data of a unit do not depend on which of the two characters end the lines |
| `LineEnds.DetectWithReturn` | `firmware/RDE_soft/App/libscpi/src/lexer.c:918-935` | a line with a carriage return before its line feed has the same units, the last one ending behind both |
| `LineEnds.RunWithReturn` | `firmware/RDE_soft/App/libscpi/src/parser.c:195-253` | and the same events, composition in the buffer included |
| `LineEnds.CrLfStream` | `firmware/RDE_soft/App/libscpi/src/parser.c:316-359` | a plain stream whose line feeds all get carriage returns: the same lines with them, the same tail and the same commands |
| `LineEnds.UnitDetected` | `firmware/RDE_soft/App/libscpi/src/parser.c:1438-1482` | every unit of a header, with or without parameters and blanks around them, is detected with its header, extent and number of parameters, and ended by a line feed, a carriage return, both, a semicolon or the end of the text |
| `LineEnds.InvalidDetected` | `firmware/RDE_soft/App/libscpi/src/parser.c:1470-1478` | a header followed by a character that belongs to no message is one invalid character, and the scan goes on behind it |
| `LineEnds.LineCalls` | `firmware/RDE_soft/App/libscpi/src/parser.c:195-253` | a line of one unit is handed on as soon as it is there, and its command is called with its parameters, or reported whole |
| `LineEnds.RealParameter` | `firmware/RDE_soft/App/libscpi/src/parser.c:1360-1390` | every decimal number is a parameter wherever it ends one |
| `LineEnds.MnemonicParameter` | `firmware/RDE_soft/App/libscpi/src/parser.c:1360-1390` | so is every mnemonic, with or without blanks behind it |
| `LineEnds.TextParameter` | `firmware/RDE_soft/App/libscpi/src/parser.c:1360-1390` | every 7-bit text in either kind of quotes, likewise |
| `LineEnds.BlockParameter` | `firmware/RDE_soft/App/libscpi/src/parser.c:1360-1390` | every block, likewise |
| `LineEnds.ListParameter` | `firmware/RDE_soft/App/libscpi/src/parser.c:1360-1390` | and every expression, likewise |
| `Parser.Context.FindCommandHeader` | `firmware/RDE_soft/App/libscpi/src/parser.c:174-186` | the first row of the table that accepts the header, or none |
| `Parser.Context.LastColon` | `firmware/RDE_soft/App/libscpi/src/utils.c:698-702` | the loop finds the length up to and including the last colon of the previous header |
| `Parser.Context.MemMove` | `firmware/RDE_soft/App/libscpi/src/utils.c:710-710` | an overlapping move writes the old source bytes and nothing else |
| `Parser.Context.ComposeCompoundCommand` | `firmware/RDE_soft/App/libscpi/src/utils.c:678-712` | the buffer and the header token after in-place composition |
| `Parser.Context.DispatchHeader` | `firmware/RDE_soft/App/libscpi/src/parser.c:217-236` | the composed header is looked up; the command is called with its data, or the undefined header is reported and the old path kept |
| `Parser.Context.ParseUnit` | `firmware/RDE_soft/App/libscpi/src/parser.c:209-243` | one turn of the loop: the events of this unit, then those of the rest of the line; nothing behind the line is written |
| `Parser.Context.Parse` | `firmware/RDE_soft/App/libscpi/src/parser.c:195-253` | the events of a line are those of the run over it; bytes behind the line are untouched |
| `Parser.Context.Input` | `firmware/RDE_soft/App/libscpi/src/parser.c:316-359` | empty input flushes the buffer, an overrun empties it with an error, anything else hands on exactly the complete lines and keeps the tail |
| `Parser.Context.ScanUnit` | `firmware/RDE_soft/App/libscpi/src/parser.c:341-354` | one turn of the scan loop: a line is taken, the scan goes on, or it ends because no line is complete; the unread length falls |
| `Parser.Context.ScanBuffer` | `firmware/RDE_soft/App/libscpi/src/parser.c:341-354` | the scan loop hands on exactly the lines the buffer holds and terminates |
| `Parser.Context.TakeLine` | `firmware/RDE_soft/App/libscpi/src/parser.c:345-348` | a complete line is parsed and the rest of the buffer moves down unchanged |
| `Parser.Context.InputAll` | `firmware/RDE_soft/App/libscpi/src/parser.c:316-359` | over every run of calls that never overrun the buffer: lines handed on, commands run and bytes kept; for a plain stream, however split, they are the lines and the tail of the stream |
| `Parser.ComposeEffect` | `firmware/RDE_soft/App/libscpi/src/utils.c:678-712` | composition yields the effective header, inside the line, without touching a byte from the current header on |
| `Parser.ComposeStep` | `firmware/RDE_soft/App/libscpi/src/parser.c:214-236` | after composition the rest of the line still reads as before, the new header is the effective one, and the last header is damaged as described |
| `Parser.LookupsExact` | `firmware/RDE_soft/App/libscpi/src/parser.c:209-247` | in-place composition looks every header up under the name the tree walk gives it, exactly if every relative header still finds the path of the last header found in the buffer |
| `Parser.ComposedInPlace` | `firmware/RDE_soft/App/libscpi/src/parser.c:209-247` | then every unit calls the command of the tree walk with the program data of the original line |
| `Parser.LineComposed` | `firmware/RDE_soft/App/libscpi/src/parser.c:195-253` | both for a whole line given to SCPI_Parse |
| `Parser.SameCompletion` | `firmware/RDE_soft/App/libscpi/src/utils.c:678-712` | a damaged header completes the next one in the same way exactly if that is not relative or the path is still there |
| `Parser.AllFoundKept` | `firmware/RDE_soft/App/libscpi/src/parser.c:217-236` | when every header is found there is no damage |
| `Parser.FoundLine` | `firmware/RDE_soft/App/libscpi/src/parser.c:195-253` | for a line in which every header is found, SCPI_Parse does exactly what the tree walk says |
| `Parser.UndefinedHeaderDamage` | `firmware/RDE_soft/App/libscpi/src/parser.c:217-236` | one undefined header changes what later headers inherit exactly when the damaged last header has another path |
| `Parser.DamagedText` | `firmware/RDE_soft/App/libscpi/src/utils.c:678-712` | what composition leaves of the last header: its last d bytes become its first d bytes, where the inherited path reaches back over d of them |
| `Parser.SameInheritance` | `firmware/RDE_soft/App/libscpi/src/utils.c:678-712` | two last headers hand down the same to every header exactly if their paths are the same |
| `Parser.UndefinedHeaderExample` | `firmware/RDE_soft/App/libscpi/src/parser.c:217-236` | for every table with A:B:C and without A:B:X the line A:B:C;X;Y has Y looked up as A:A:Y, where the walk looks A:B:Y up |
| `Parser.UndefinedHeaderTable` | `firmware/RDE_soft/App/libscpi/src/parser.c:217-236` | so with the table A:B:C, A:B:Y that line reports Y as undefined |
| `Parser.UnitTokens` | `firmware/RDE_soft/App/libscpi/src/parser.c:1438-1482` | header and data tokens of a detected unit lie inside it, in order |
| `Parser.HeaderChars` | `firmware/RDE_soft/App/libscpi/src/lexer.c:406-442` | header tokens contain only header characters |
| `TreeWalk.CompletedText` | `firmware/RDE_soft/App/libscpi/src/utils.c:678-712` | on keywords: a relative header takes the place of the last keyword of the header before it; a leading colon, a common command and what follows one start at the root |
| `TreeWalk.WalkMessage` | `firmware/RDE_soft/App/libscpi/src/parser.c:209-247` | the tree walk over a message of any units calls their completed headers in order, each with its own parameters |
| `TreeWalk.MessageCalls` | `firmware/RDE_soft/App/libscpi/src/parser.c:195-253` | and SCPI_Parse does so if every completed header is found |
| `CommandMatch.StrNPbrk` | `firmware/RDE_soft/App/libscpi/src/utils.c:58-69` | the first character of the set, or none |
| `CommandMatch.CompareStr` | `firmware/RDE_soft/App/libscpi/src/utils.c:347-357` | equality of two texts ignoring case |
| `CommandCase.KeywordForms` | `firmware/RDE_soft/App/libscpi/src/utils.c:478-495` | a keyword matches exactly the words that are its long form or its capitals alone, in any case |
| `CommandCase.AcceptsAnyCase` | `firmware/RDE_soft/App/libscpi/src/utils.c:504-668` | whether a command is accepted does not depend on the case of its letters |
| `CommandCase.FoundAnyCase` | `firmware/RDE_soft/App/libscpi/src/parser.c:174-186` | so in every table the same row is found |
| `CommandMatch.PatternSeparatorShortPos` | `firmware/RDE_soft/App/libscpi/src/utils.c:426-434` | the length of the short form |
| `CommandMatch.MatchPattern` | `firmware/RDE_soft/App/libscpi/src/utils.c:478-495` | a word matches a keyword exactly in its long or its short form, ignoring case |
| `CommandMatch.PatternSeparatorPos` | `firmware/RDE_soft/App/libscpi/src/utils.c:442-450` | the first separator of a pattern text, or its length |
| `CommandMatch.CmdSeparatorPos` | `firmware/RDE_soft/App/libscpi/src/utils.c:458-468` | the length of the first word of a command |
| `CommandMatch.MatchCommand` | `firmware/RDE_soft/App/libscpi/src/utils.c:504-668` | true exactly when the left-to-right rule accepts the command, for every pattern text of keywords, optional keywords and a query mark |
| `CommandMatch.MatchWords` | `firmware/RDE_soft/App/libscpi/src/utils.c:551-664` | the main loop, whose four separator cases and bracket counter realise that rule |
| `CommandMatch.RestIsOptional` | `firmware/RDE_soft/App/libscpi/src/utils.c:586-611` | when the words are used up, the inner loop tells whether only optional keywords remain |
| `CommandMatch.PhaseStep` | `firmware/RDE_soft/App/libscpi/src/utils.c:586-611` | what cutting a pattern text at its next separator leaves, in each phase of the inner loop |
| `CommandMatch.RenderClean` | `firmware/RDE_soft/App/libscpi/src/utils.c:520-528` | a pattern text ends in a question mark only if the pattern is a query |
| `CommandChoice.AcceptsByWords` | `firmware/RDE_soft/App/libscpi/src/utils.c:504-668` | the rule on text is the rule on the words between the colons |
| `CommandChoice.NoQuestionMark` | `firmware/RDE_soft/App/libscpi/src/utils.c:504-668` | a question mark inside the words is never accepted |
| `CommandChoice.WordsByChoice` | `firmware/RDE_soft/App/libscpi/src/utils.c:504-668` | left-to-right accepts only what some choice of optional keywords accepts, and all of it when no optional keyword shares a word with the first mandatory one behind it |
| `CommandChoice.AcceptsByChoice` | `firmware/RDE_soft/App/libscpi/src/utils.c:504-668` | an accepted command is matched word by word by some choice of optional keywords, and under that condition every such command is accepted |
| `CommandChoice.FailingCommand` | `firmware/RDE_soft/App/libscpi/src/utils.c:504-668` | for segments that miss the condition there is a command some choice matches and the matcher rejects |
| `CommandChoice.ChoiceExactly` | `firmware/RDE_soft/App/libscpi/src/utils.c:504-668` | acceptance is the existence of a matching choice for every command if and only if no optional keyword shares a word with the first mandatory one behind it |
| `CommandChoice.AcceptsIsChoice` | `firmware/RDE_soft/App/libscpi/src/utils.c:504-668` | the same for the whole matcher with its query mark and leading colon |
| `CommandChoice.PatternExactly` | `firmware/RDE_soft/App/libscpi/src/utils.c:504-668` | and its converse for whole patterns, where the failing command is not empty |
| `CommandChoice.OverlapExample` | `firmware/RDE_soft/App/libscpi/src/utils.c:504-668` | with an overlap it fails: the pattern [:A]:A does not accept A |
| `CommandChoice.OverlapIsCommonWord` | `firmware/RDE_soft/App/libscpi/src/utils.c:478-495` | two keywords have a word in common exactly if a long or short form of one equals one of the other |
| `CommandTable.CommandText` | `firmware/RDE_soft/App/scpi_def.c:73-146` | the pattern text of a row without optional keywords is its keywords with colons and the query mark |
| `CommandTable.NextText` | `firmware/RDE_soft/App/scpi_def.c:90-90` | the row with an optional keyword is spelled SYSTem:ERRor[:NEXT]? |
| `CommandTable.RowGood` | `firmware/RDE_soft/App/scpi_def.c:73-146` | every row is a well-formed pattern in which at most the last keyword is optional |
| `CommandTable.KeywordId` | `firmware/RDE_soft/App/libscpi/src/utils.c:478-495` | every word a table keyword matches carries that keyword's number |
| `CommandTable.AcceptedKey` | `firmware/RDE_soft/App/scpi_def.c:73-146` | an accepted command has the key of its row, with or without the optional keyword |
| `CommandTable.RowOrdered` | `firmware/RDE_soft/App/scpi_def.c:73-146` | the keys grow strictly along the table |
| `CommandTable.Unambiguous` | `firmware/RDE_soft/App/scpi_def.c:73-146` | no command is accepted by two rows of the table |
| `CommandTable.RowByChoice` | `firmware/RDE_soft/App/scpi_def.c:73-146` | for every row acceptance is some choice of its optional keywords |
| `CommandTable.BoardDispatch` | `firmware/RDE_soft/App/libscpi/src/parser.c:174-186` | first-match dispatch over the table returns a row if and only if that row accepts the header |
| `Parameters.CommandContext.Parameter` | `firmware/RDE_soft/App/libscpi/src/parser.c:699-749` | one call: the next parameter, or exactly one of the three errors, or the silent end for an optional one |
| `Parameters.CommandContext.Callback` | `firmware/RDE_soft/App/libscpi/src/parser.c:136-150` | a callback that asks for n mandatory parameters gets the first n, and the first error if there are fewer |
| `Parameters.CommandContext.ProcessCommand` | `firmware/RDE_soft/App/libscpi/src/parser.c:126-167` | success exactly when the callback accepts and has read everything; PARAMETER_NOT_ALLOWED exactly when it succeeded and text is left |
| `Parameters.HandleCommand` | `firmware/RDE_soft/App/libscpi/src/parser.c:217-231` | both passes together: asking for all counted parameters is the only way to succeed, asking for fewer raises PARAMETER_NOT_ALLOWED, asking for more reads all and raises MISSING_PARAMETER |
| `Parameters.ReadMore` | `firmware/RDE_soft/App/libscpi/src/parser.c:699-749` | asking for more parameters than there are yields all of them and then MISSING_PARAMETER |
| `Parameters.SecondPass` | `firmware/RDE_soft/App/libscpi/src/parser.c:699-749` | if the last token lies inside the handed-over text, the second pass yields the tokens of the first and ends at its end |
| `Parameters.TwoPassesAgree` | `firmware/RDE_soft/App/libscpi/src/parser.c:1399-1429` | the passes agree if and only if the measured text reaches the end of the last token |
| `Parameters.MeasuredLength` | `firmware/RDE_soft/App/libscpi/src/parser.c:1399-1429` | the measured length is at most the cursor advance, with equality exactly if no suffix-less decimal is followed by blanks |
| `Parameters.CountedDataAgrees` | `firmware/RDE_soft/App/libscpi/src/parser.c:1360-1429` | in that case all parameters are read again with the same tokens, to the end |
| `Parameters.BlankExample` | `firmware/RDE_soft/App/libscpi/src/parser.c:1373-1379` | it does fail otherwise: of "1 ,22" the second parameter is read as 2 |
| `Parameters.ReadFewer` | `firmware/RDE_soft/App/libscpi/src/parser.c:699-749` | asking for fewer parameters yields a prefix of the tokens |
| `Parameters.CommandContext.ParamCopyText` | `firmware/RDE_soft/App/libscpi/src/parser.c:1187-1228` | the copied text, its length and its terminator for a quoted parameter, or a data type error |
| `Parameters.CopyToken` | `firmware/RDE_soft/App/libscpi/src/parser.c:1203-1219` | the copy loop fills the destination with the unquoted text, never beyond its end |
| `Parameters.QuotedParameter` | `firmware/RDE_soft/App/libscpi/src/parser.c:1187-1228` | every quoted parameter is the quoted form of one text; a prefix of it is copied, all of it exactly if its last character comes before the limit |
| `IntegerText.ToStrBaseSign` | `firmware/RDE_soft/App/libscpi/src/utils.c:80-132` | both widths: the text of the value cut to the buffer length, a terminator if there is room, nothing else written |
| `IntegerText.WriteInteger` | `firmware/RDE_soft/App/libscpi/src/utils.c:166-218` | the same up to the terminator: base selection, sign, zero and digit loop |
| `IntegerText.SkipZeros` | `firmware/RDE_soft/App/libscpi/src/utils.c:116-119` | the power reached is the largest one of the base not above the value |
| `IntegerText.WriteDigits` | `firmware/RDE_soft/App/libscpi/src/utils.c:121-126` | the digit loop writes the numeral of the value, or as much of it as fits |
| `IntegerText.AddChar` | `firmware/RDE_soft/App/libscpi/src/utils.c:83-83` | a character is appended only below the limit |
| `IntegerText.TopPowers` | `firmware/RDE_soft/App/libscpi/src/utils.c:179-194` | each starting constant is a power of its base and one more digit covers every value |
| `IntegerText.ShowIsNumeral` | `firmware/RDE_soft/App/libscpi/src/utils.c:80-132` | the numeral has only digits of the base, no leading zero, and evaluates to the number |
| `IntegerText.NumeralIsShow` | `firmware/RDE_soft/App/libscpi/src/utils.c:80-132` | it is the only numeral that does |
| `IntegerText.LeadingDigits` | `firmware/RDE_soft/App/libscpi/src/utils.c:121-126` | a numeral for the value without its last digits is a prefix of the numeral of the value |
| `IntegerText.TextFits` | `firmware/RDE_soft/App/libscpi/src/parser.c:400-404` | the text and its terminator always fit the local buffers of 33 and 65 characters |
| `IntegerText.ReadsBack` | `firmware/RDE_soft/App/libscpi/src/utils.c:80-132` | the printed text evaluates back to the signed or unsigned value, the most negative one included |
| `IntegerText.PrefixedLexed` | `firmware/RDE_soft/App/libscpi/src/lexer.c:597-627` | a base prefix and digits are scanned as one number of that base whose token is the digits |
| `IntegerText.NondecimalLexed` | `firmware/RDE_soft/App/libscpi/src/parser.c:399-415` | every printed number in base 2, 8 or 16 is scanned as one token that is exactly its digits and evaluates back |
| `IntegerText.IntegerLexed` | `firmware/RDE_soft/App/libscpi/src/parser.c:425-441` | every printed decimal is scanned as one number that is exactly its text and evaluates back |
| `QuotedText.QuotedScan` | `firmware/RDE_soft/App/libscpi/src/lexer.c:666-705` | quoted text followed by no further quote is one string token if and only if it is 7-bit |
| `QuotedText.TextLexed` | `firmware/RDE_soft/App/libscpi/src/parser.c:522-538` | what SCPI_ResultText writes is scanned as one double-quoted parameter that is all of it if the text is 7-bit, and otherwise as no parameter |
| `QuotedText.TokenIsQuoted` | `firmware/RDE_soft/App/libscpi/src/lexer.c:634-705` | conversely every string token is the quoted form of a 7-bit text |
| `QuotedText.CopyRecovers` | `firmware/RDE_soft/App/libscpi/src/parser.c:1203-1215` | the copy loop over a quoted text yields a prefix of the text |
| `QuotedText.CopyRoundTrip` | `firmware/RDE_soft/App/libscpi/src/parser.c:1187-1228` | that prefix is the whole text exactly if the escaped text before its last character is shorter than the destination |
| `QuotedText.FitIsLongest` | `firmware/RDE_soft/App/libscpi/src/parser.c:551-608` | the limited text is the escaped form of a prefix, so no doubled quote is split, and no longer prefix fits |
| `QuotedText.FitConcat` | `firmware/RDE_soft/App/libscpi/src/parser.c:577-604` | limiting a concatenation is limiting its parts with the room left |
| `Responses.ResultContext.WriteDelimiter` | `firmware/RDE_soft/App/libscpi/src/parser.c:82-88` | a comma before every result but the first of a command |
| `Responses.ResultContext.ResultUIntBaseSign` | `firmware/RDE_soft/App/libscpi/src/parser.c:399-441` | delimiter, base prefix and digits are appended, one result is counted and the length returned |
| `Responses.ResultContext.ResultInt32` | `firmware/RDE_soft/App/libscpi/src/parser.c:449-451` | the two's complement value is printed as signed decimal |
| `Responses.ResultContext.WriteEscaped` | `firmware/RDE_soft/App/libscpi/src/parser.c:529-535` | the loop writes the text with every quote doubled and the closing quote |
| `Responses.ResultContext.ResultText` | `firmware/RDE_soft/App/libscpi/src/parser.c:522-538` | the output grows by delimiter and quoted text, and the length is returned |
| `Responses.ResultContext.WriteQuotes` | `firmware/RDE_soft/App/libscpi/src/parser.c:586-600` | the inner loop writes up to the last quote that fits twice and knows whether one is left without room |
| `Responses.ResultContext.WritePart` | `firmware/RDE_soft/App/libscpi/src/parser.c:582-603` | one part is written as far as the limit allows, and the limit left is right, never below zero |
| `Responses.ResultContext.WriteParts` | `firmware/RDE_soft/App/libscpi/src/parser.c:577-604` | all parts together: the longest fitting escaped prefix of description;info |
| `Responses.ResultContext.ErrorParts` | `firmware/RDE_soft/App/libscpi/src/parser.c:563-571` | description and information in one or two heap pieces, which concatenate to the stored text |
| `Responses.ResultContext.ResultError` | `firmware/RDE_soft/App/libscpi/src/parser.c:551-608` | the number and the limited, quoted description of an error whose text lies in the ring heap |
| `Responses.ResultContext.ResultArbitraryBlockHeader` | `firmware/RDE_soft/App/libscpi/src/parser.c:616-630` | the header of the block announces the length in its own number of digits |
| `Responses.ResultContext.ResultArbitraryBlockData` | `firmware/RDE_soft/App/libscpi/src/parser.c:639-653` | data are written while they fit the announced length; the block counts as a result when it is complete |
| `Responses.ResultContext.ResultArbitraryBlock` | `firmware/RDE_soft/App/libscpi/src/parser.c:662-667` | header and payload are appended and one result is counted |
| `Responses.DescriptionLimited` | `firmware/RDE_soft/App/libscpi/src/parser.c:540-549` | at most 255 characters, no split quote, as long as possible, and everything if it fits |
| `Responses.ErrorLexed` | `firmware/RDE_soft/App/libscpi/src/parser.c:551-608` | the two results of an error report are scanned as its number and, exactly if the kept part of the description is 7-bit, as one string that is that part; otherwise the second is no parameter |
| `Responses.UndefinedBlock` | `firmware/RDE_soft/App/libscpi/src/parser.c:217-236` | a description can hold any bytes: an undefined header with a block parameter is reported with the bytes of the block |
| `Responses.QuoteFits` | `firmware/RDE_soft/App/libscpi/src/parser.c:586-600` | a quote that fits twice takes two of the characters left, and the rest is limited on its own |
| `Responses.PartEnds` | `firmware/RDE_soft/App/libscpi/src/parser.c:593-603` | where a part ends: all of it, at the limit, or before a quote that does not fit twice |
| `BlockText.HeaderParts` | `firmware/RDE_soft/App/libscpi/src/parser.c:616-630` | the digit behind # counts the length digits, and they evaluate to the length |
| `BlockText.BlockLexed` | `firmware/RDE_soft/App/libscpi/src/lexer.c:718-774` | whatever follows, a written block is one block token that is exactly its payload |
| `BlockText.PartialBlock` | `firmware/RDE_soft/App/libscpi/src/lexer.c:718-774` | every strict prefix with the # is reported incomplete with the cursor at the end |
| `ErrorHeap.Heap.constructor` | `firmware/RDE_soft/App/libscpi/src/utils.c:776-783` | an empty heap of zeros |
| `ErrorHeap.Heap.StrNDup` | `firmware/RDE_soft/App/libscpi/src/utils.c:792-832` | the limited text becomes the newest one if it is not empty and fits with its zero, else nothing changes |
| `ErrorHeap.Heap.StoreBytes` | `firmware/RDE_soft/App/libscpi/src/utils.c:809-831` | the two copies and the moved write position put the text behind the newest one, wrapping around exactly when needed |
| `ErrorHeap.Heap.GetParts` | `firmware/RDE_soft/App/libscpi/src/utils.c:843-864` | the parts of a live text concatenate to it, wrapped and exact-fit texts included |
| `ErrorHeap.Heap.Free` | `firmware/RDE_soft/App/libscpi/src/utils.c:873-902` | freeing the oldest text, or rolling back the newest, removes exactly it and zeroes its bytes |
| `ErrorHeap.Heap.FreeText` | `firmware/RDE_soft/App/libscpi/src/utils.c:880-901` | the same for the branch that finds a text |
| `ErrorHeap.Heap.ReleaseBytes` | `firmware/RDE_soft/App/libscpi/src/utils.c:882-890` | exactly the bytes of the text and its zero are cleared and counted as free |
| `ErrorHeap.Heap.TextAt` | `firmware/RDE_soft/App/libscpi/src/utils.c:792-832` | every live text lies whole at its index, read circularly |
| `ErrorHeap.StoredView` | `firmware/RDE_soft/App/libscpi/src/utils.c:809-831` | read circularly, storing appends the text and takes its bytes from the free ones |
| `ErrorHeap.FreedView` | `firmware/RDE_soft/App/libscpi/src/utils.c:880-901` | read circularly, freeing the oldest or the newest text leaves zeros and the other texts, from the new write position |
| `ErrorHeap.FirstPart` | `firmware/RDE_soft/App/libscpi/src/utils.c:852-854` | the first part is the text up to the end of the heap |
| `ErrorHeap.SecondPart` | `firmware/RDE_soft/App/libscpi/src/utils.c:856-859` | the second part is what wrapped around |
| `ErrorFifo.Fifo.constructor` | `firmware/RDE_soft/App/libscpi/src/fifo.c:35-41` | an empty queue |
| `ErrorFifo.Fifo.Clear` | `firmware/RDE_soft/App/libscpi/src/fifo.c:47-51` | the queue becomes empty |
| `ErrorFifo.Fifo.Add` | `firmware/RDE_soft/App/libscpi/src/fifo.c:78-91` | the entry is appended unless the queue is full |
| `ErrorFifo.Fifo.Remove` | `firmware/RDE_soft/App/libscpi/src/fifo.c:99-113` | the oldest entry is taken off, or there is none |
| `ErrorFifo.Fifo.RemoveLast` | `firmware/RDE_soft/App/libscpi/src/fifo.c:121-135` | the newest entry is taken off, or there is none |
| `StatusRegisters.Registers.RegSet` | `firmware/RDE_soft/App/libscpi/src/ieee488.c:147-240` | the cascade from condition to event to status register ends in the registers Written describes |
| `StatusRegisters.Registers.UpdateServiceRequest` | `firmware/RDE_soft/App/libscpi/src/ieee488.c:170-186` | SRQ is set exactly if status and service enable have another bit in common |
| `StatusRegisters.ServiceRequestAlways` | `firmware/RDE_soft/App/libscpi/src/ieee488.c:147-240` | over every run of register writes SRQ is set if and only if STB & SRE, SRQ masked out, is not zero |
| `StatusRegisters.EventWrite` | `firmware/RDE_soft/App/libscpi/src/ieee488.c:187-206` | a value-changing event write makes its summary bit equal (event & enable) != 0 and leaves the other bits alone |
| `StatusRegisters.ConditionWrite` | `firmware/RDE_soft/App/libscpi/src/ieee488.c:207-233` | a condition write stores the value and adds exactly its rising edges to the event register |
| `StatusRegisters.EdgeCaught` | `firmware/RDE_soft/App/libscpi/src/ieee488.c:207-233` | every rising edge is in the event register afterwards |
| `StatusRegisters.EdgeLatched` | `firmware/RDE_soft/App/libscpi/src/ieee488.c:147-240` | over every run it stays there until a write to that event register clears it |
| `StatusRegisters.StatusKept` | `firmware/RDE_soft/App/libscpi/src/ieee488.c:147-240` | every write but one to the status byte keeps the status consistent and the message bit as it is |
| `StatusRegisters.SummaryWrite` | `firmware/RDE_soft/App/libscpi/src/ieee488.c:187-240` | after a write all summary bits agree with (event & enable) != 0 as before, exactly unless it is a write to an enable register that changes whether an enabled event is pending |
| `StatusRegisters.MessageSummary` | `firmware/RDE_soft/App/libscpi/src/ieee488.c:247-258` | the message bit leaves the summary bits as they are |
| `StatusRegisters.SummaryRun` | `firmware/RDE_soft/App/libscpi/src/ieee488.c:147-240` | over every run of writes the summary bits agree throughout exactly if no enable write of the run is of that kind |
| `StatusRegisters.StaleSummaryExample` | `firmware/RDE_soft/App/libscpi/src/ieee488.c:234-237` | the agreement fails: a command error followed by enabling it leaves the ESR summary bit clear |
| `StatusRegisters.MessageBit` | `firmware/RDE_soft/App/libscpi/src/ieee488.c:247-258` | setting or clearing the message bit does so, and changes no other register |
| `StatusRegisters.NothingToReport` | `firmware/RDE_soft/App/libscpi/src/ieee488.c:266-276` | a consistent status without events and message is 0 |
| `StatusBits.RequestAlways` | `firmware/RDE_soft/App/libscpi/src/ieee488.c:170-186` | bit by bit: over every run of writes from reset bit 6 of STB is set if and only if STB & SRE & 0xFFBF is not zero |
| `StatusBits.SummariesAre` | `firmware/RDE_soft/App/libscpi/src/ieee488.c:187-206` | the summary bits are 0x20 for ESR & ESE, 0x80 for OPER & OPERE, 0x08 for QUES & QUESE |
| `StatusBits.EventDecides` | `firmware/RDE_soft/App/libscpi/src/ieee488.c:187-206` | a changed event register is stored and decides its bit of these |
| `StatusBits.EdgesRecorded` | `firmware/RDE_soft/App/libscpi/src/ieee488.c:207-233` | a condition write adds val & ~old to the event register and nothing else |
| `StatusBits.EnableStored` | `firmware/RDE_soft/App/libscpi/src/ieee488.c:234-237` | enable and service enable writes store the value |
| `StatusBits.PushBits` | `firmware/RDE_soft/App/libscpi/src/error.c:159-191` | a push adds to ESR exactly the bit of its range of codes and sets 0x04 in STB |
| `StatusBits.MessageAlways` | `firmware/RDE_soft/App/libscpi/src/error.c:78-84` | over every run from reset 0x04 is set in STB if and only if the queue is not empty |
| `ErrorQueue.ErrorContext.constructor` | `firmware/RDE_soft/App/libscpi/src/error.c:55-57` | no error, reset registers, and the invariant |
| `ErrorQueue.ErrorContext.AddInternal` | `firmware/RDE_soft/App/libscpi/src/error.c:131-150` | the error is appended, or replaces the newest one by QUEUE_OVERFLOW and gives up both texts |
| `ErrorQueue.ErrorContext.StoreInfo` | `firmware/RDE_soft/App/libscpi/src/error.c:136-139` | the text kept for the error, if any, is the newest of the heap |
| `ErrorQueue.ErrorContext.Overflow` | `firmware/RDE_soft/App/libscpi/src/error.c:142-146` | text of the rejected error, newest error and its text leave; the overflow mark enters |
| `ErrorQueue.ErrorContext.FreeNewest` | `firmware/RDE_soft/App/libscpi/src/error.c:142-144` | the newest text is rolled back |
| `ErrorQueue.ErrorContext.Emit` | `firmware/RDE_soft/App/libscpi/src/error.c:78-84` | the message bit is set and the indicator follows the code |
| `ErrorQueue.ErrorContext.EmitEmpty` | `firmware/RDE_soft/App/libscpi/src/error.c:63-71` | when the last error is gone, message bit and indicator go off, else nothing changes |
| `ErrorQueue.ErrorContext.RegSetBits` | `firmware/RDE_soft/App/libscpi/src/ieee488.c:247-249` | a write of the old value with the bits |
| `ErrorQueue.ErrorContext.RegClearBits` | `firmware/RDE_soft/App/libscpi/src/ieee488.c:256-258` | a write of the old value without the bits |
| `ErrorQueue.ErrorContext.ClassEvents` | `firmware/RDE_soft/App/libscpi/src/error.c:187-191` | the loop over the class table sets the event bit of the code's class and nothing else |
| `ErrorQueue.ErrorContext.PushEx` | `firmware/RDE_soft/App/libscpi/src/error.c:179-201` | queue, texts, registers and indicator after a push |
| `ErrorQueue.ErrorContext.Pop` | `firmware/RDE_soft/App/libscpi/src/error.c:108-116` | the oldest error is returned, its text still live and the oldest of the heap |
| `ErrorQueue.ErrorContext.FreePopped` | `firmware/RDE_soft/App/libscpi/src/minimal.c:85-87` | the text of a popped error is freed |
| `ErrorQueue.ErrorContext.SystemErrorNextQ` | `firmware/RDE_soft/App/libscpi/src/minimal.c:81-89` | the oldest error is reported with its own text, from the ring heap, and removed |
| `ErrorQueue.ErrorContext.ErrorClear` | `firmware/RDE_soft/App/libscpi/src/error.c:90-100` | no error and no text is left, and the message bit goes off |
| `ErrorQueue.ErrorContext.CoreCls` | `firmware/RDE_soft/App/libscpi/src/ieee488.c:266-276` | queue empty, event registers zero, in every reachable state |
| `ErrorQueue.ErrorContext.Execute` | `firmware/RDE_soft/App/scpi_def.c:73-146` | one operation does to queue, texts and registers what the model step says, and reports what it says |
| `ErrorQueue.ErrorContext.ExecuteAll` | `firmware/RDE_soft/App/scpi_def.c:213-219` | over every run: queue, texts, registers and reports are those of the model, and the indicator is on exactly while there are errors |
| `ErrorQueue.ClassTable` | `firmware/RDE_soft/App/libscpi/src/error.c:159-169` | a code matches at most one row, the one of its class; positive codes match none |
| `ErrorQueue.StepOk` | `firmware/RDE_soft/App/libscpi/src/error.c:179-201` | every operation keeps the bound, the stored texts and the message bit consistent |
| `ErrorQueue.RunOk` | `firmware/RDE_soft/App/libscpi/src/error.c:179-201` | over every run STB.QMA is set if and only if the queue is not empty, and the queue stays bounded |
| `ErrorQueue.PushSetsOwnClass` | `firmware/RDE_soft/App/libscpi/src/error.c:159-191` | a push sets exactly the event bit of its own class |
| `ErrorQueue.ClsClears` | `firmware/RDE_soft/App/libscpi/src/ieee488.c:266-276` | *CLS from any reachable state yields an empty queue, zero event registers and STB = 0 |
| `ErrorQueue.RunFromReset` | `firmware/RDE_soft/App/libscpi/src/error.c:179-201` | the same two for every run from start-up |
| `ErrorReports.ResultReports` | `firmware/RDE_soft/App/libscpi/src/parser.c:551-608` | an error report is the number, a comma and in quotes the longest prefix of the description that takes at most 255 characters with its quotes doubled |
| `ErrorReports.PushOne` | `firmware/RDE_soft/App/libscpi/src/error.c:131-150` | a push adds the error with the text its information comes down to if that has room, or -350 takes the last place of a full queue |
| `ErrorReports.PushedAll` | `firmware/RDE_soft/App/libscpi/src/error.c:131-150` | so any errors pushed into an empty queue are in it, in order and with their texts, as many as there is room for |
| `ErrorReports.ReportsInOrder` | `firmware/RDE_soft/App/libscpi/src/minimal.c:81-89` | from reset, any errors pushed and then read: each read answers for the next error with its number, its standard text and its own information, then -350 if there were too many, then 0 |
| `ErrorQueue.ExecuteFromStart` | `firmware/RDE_soft/App/libscpi/src/error.c:55-57` | a device from its start: queue, texts, registers, reports and indicator after every run are those of the model from reset |
| `ErrorQueue.SummaryStep` | `firmware/RDE_soft/App/libscpi/src/error.c:179-201` | pushes, reads and *CLS keep the summary bits in agreement, register writes exactly as above |
| `ErrorQueue.SummaryOverRun` | `firmware/RDE_soft/App/libscpi/src/error.c:179-201` | over every run of these operations the summary bits agree throughout exactly if no enable write makes one stale |
| `ErrorQueue.SummaryFromReset` | `firmware/RDE_soft/App/libscpi/src/error.c:55-57` | in particular over every run from start-up |
| `FramDevice.Fram.Write` | `firmware/RDE_soft/App/fram/fm24c64b.c:30-42` | a prefix of the bytes arrives; success only if all of them do, and always then if the bus is reliable |
| `FramDevice.Fram.Read` | `firmware/RDE_soft/App/fram/fm24c64b.c:44-56` | the bytes of the FRAM, or, if the bus refuses, a failure and any bytes |
| `FramDevice.Fram.WriteBlock` | `firmware/RDE_soft/App/net_config_fram.c:59-67` | structure and CRC are written one after the other; a failed first write ends it; other blocks are untouched |
| `FramDevice.Fram.WriteBoth` | `firmware/RDE_soft/App/net_config_fram.c:106-107` | both copies are tried, primary first, whatever becomes of the first |
| `FramDevice.NetConfig.ReadBlock` | `firmware/RDE_soft/App/net_config_fram.c:69-78` | a block is used exactly if it was read and CRC and magic number are right |
| `FramDevice.NetConfig.Init` | `firmware/RDE_soft/App/net_config_fram.c:82-100` | primary, else backup with the primary restored, else the defaults with both written, each copy counted only if it was read; other structures untouched |
| `FramDevice.NetConfig.Save` | `firmware/RDE_soft/App/net_config_fram.c:103-109` | 1 only if both copies were written whole; with a reliable bus the FRAM is exactly the cut at the power left; other structures untouched in any case |
| `FramDevice.RelayCal.ReadBlock` | `firmware/RDE_soft/App/relay/relay_cal.c:44-68` | calibration data are used if the CRC is right, their configuration if the magic number is right as well; a refused read is not noticed |
| `FramDevice.RelayCal.FillNominal` | `firmware/RDE_soft/App/relay/relay_cal.c:25-32` | the nested loops fill the nominal table |
| `FramDevice.RelayCal.RestoreCopy` | `firmware/RDE_soft/App/relay/relay_cal.c:89-103` | a usable backup is read and its primary restored, other structures untouched |
| `FramDevice.RelayCal.InitialiseMissing` | `firmware/RDE_soft/App/relay/relay_cal.c:105-116` | what could not be loaded gets its defaults in both copies |
| `FramDevice.RelayCal.Init` | `firmware/RDE_soft/App/relay/relay_cal.c:72-119` | data and configuration are loaded separately, and the writes are tried in the order of the C code; the network blocks are untouched in any case |
| `FramDevice.RelayCal.Save` | `firmware/RDE_soft/App/relay/relay_cal.c:121-134` | 1, and the loaded flag, only if all four blocks were written whole; with a reliable bus the FRAM is exactly the cut at the power left; the network blocks are untouched in any case |
| `FramDevice.AfterOneMore` | `firmware/RDE_soft/App/net_config_fram.c:59-67` | an interrupted run of writes followed by one more |
| `FramBlocks.ImageAccepted` | `firmware/RDE_soft/App/net_config_fram.c:69-78` | what is written for a structure is accepted when read back |
| `FramBlocks.SaveCutLoads` | `firmware/RDE_soft/App/net_config_fram.c:103-109` | whatever the two blocks held, a save cut after any byte loads the old structure, the new one, or what the backup offers, and which of them |
| `FramBlocks.SaveIsAtomic` | `firmware/RDE_soft/App/net_config_fram.c:103-109` | whatever the two blocks held, every cut loads the old or the new structure if and only if what the backup offers (its structure, or the defaults) is one of them, or no cut tears the primary |
| `FramBlocks.StartKeeps` | `firmware/RDE_soft/App/net_config_fram.c:82-100` | a start cut after any byte loads, and leaves to be loaded, what it would have loaded uncut |
| `FramBlocks.StartsKeep` | `firmware/RDE_soft/App/net_config_fram.c:82-100` | the same for any number of interrupted starts |
| `FramBlocks.TornBackupLoses` | `firmware/RDE_soft/App/net_config_fram.c:86-89` | a torn backup is not repaired while the primary is usable; the next save is then atomic exactly if the defaults are the old or the new structure, and torn in the primary it loses both copies |
| `FramBlocks.StaleBackupReturns` | `firmware/RDE_soft/App/net_config_fram.c:86-89` | after a save of b over a that was cut between its two blocks a start leaves a in the backup; a later save of c is then atomic exactly if a is b or c, and torn in the primary it brings a back |
| `FramStore.BlocksApart` | `firmware/RDE_soft/App/fram/fm24c64b.h:12-19` | no two of the six blocks overlap and all lie inside the FRAM |
| `FramStore.CutSeen` | `firmware/RDE_soft/App/fram/fm24c64b.h:12-19` | what an interrupted run of writes does to one structure depends only on the writes of that structure |
| `FramStore.CutShare` | `firmware/RDE_soft/App/relay/relay_cal.c:121-134` | a cut of the whole run is some cut of the structure's own writes |
| `FramStore.SavedOldOrNew` | `firmware/RDE_soft/App/net_config_fram.c:103-109` | whichever byte a run that saves a structure is cut after, the old or the new one is loaded, if and only if its backup offered one of them before or its primary cannot be torn |
| `FramStore.SavedCut` | `firmware/RDE_soft/App/relay/relay_cal.c:121-134` | what is loaded after a cut run depends only on the structure's own blocks and its own share of the bytes |
| `FramStore.NetSaveAtomic` | `firmware/RDE_soft/App/net_config_fram.c:103-109` | power-fail atomicity of net_config_save for any state of the FRAM, with its exact condition, and with the calibration untouched |
| `FramStore.CalSaveAtomic` | `firmware/RDE_soft/App/relay/relay_cal.c:121-134` | the same for relay_cal_save, for data and for configuration, with the network configuration untouched |
| `FramStore.SaveReadsBack` | `firmware/RDE_soft/App/net_config_fram.c:102-109` | a save that was written whole is loaded back exactly, from either copy, so that any next save meets that condition |
| `FramStore.StartIsSafe` | `firmware/RDE_soft/App/relay/relay_cal.c:72-119` | a start interrupted after any byte changes what is loaded for no structure |
| `FramStore.RefusedStart` | `firmware/RDE_soft/App/net_config_fram.c:82-100` | what a start on a bus that refuses reads leaves to be loaded, and exactly when that is what was loaded before |
| `FramStore.RefusedReadsLose` | `firmware/RDE_soft/App/net_config_fram.c:82-100` | two refused reads overwrite two good copies with the defaults |
| `FramCopies.LoadsIntact` | `firmware/RDE_soft/App/net_config_fram.c:82-100` | a start loads the primary if its CRC bytes and magic number are right, else the backup if its are, else the defaults, byte by byte |
| `FramCopies.StartRepairs` | `firmware/RDE_soft/App/relay/relay_cal.c:89-116` | a start that is not cut leaves an intact primary with what it loaded, and an intact backup if neither was; what was intact stays |
| `FramCopies.SaveWritesIntact` | `firmware/RDE_soft/App/net_config_fram.c:103-109` | a save that is not cut leaves two intact copies of the bytes it was given |
| `FramCopies.CopiesAt` | `firmware/RDE_soft/App/fram/fm24c64b.h:12-19` | where the six copies lie, by address |
| `FramCopies.CalSaveOrder` | `firmware/RDE_soft/App/relay/relay_cal.c:121-134` | relay_cal_save writes both copies of the data before those of their configuration |
| `RelayState.DecadeRealised` | `firmware/RDE_soft/App/relay/relay_ctrl.c:67-86` | the relays chosen for a digit realise it on the resistor ladder and leave the terminal relays alone |
| `RelayState.BitChanged` | `firmware/RDE_soft/App/relay/relay_ctrl.c:252-264` | setting or clearing a bit changes that bit and no other |
| `RelayState.DigitsMean` | `firmware/RDE_soft/App/relay/relay_ctrl.c:93-102` | the digits the loops compute are digits and mean the value |
| `RelayState.BuildRealises` | `firmware/RDE_soft/App/relay/relay_ctrl.c:93-102` | the built relays realise what the digits mean |
| `RelayState.ResistanceStep` | `firmware/RDE_soft/App/relay/relay_ctrl.c:161-185` | whatever the relays were, setting a value realises it and the terminals follow |
| `RelayState.DecadeStep` | `firmware/RDE_soft/App/relay/relay_ctrl.c:221-243` | so does setting one decade, the other digits staying |
| `RelayState.OutputOnStep` | `firmware/RDE_soft/App/relay/relay_ctrl.c:205-213` | switching the output on realises a known value again, raw settings included |
| `RelayState.OutputOffStep` | `firmware/RDE_soft/App/relay/relay_ctrl.c:197-203` | switching it off opens CONNECT and leaves SHORT as it was: the terminals are shorted afterwards exactly if they were before |
| `RelayState.OffShorts` | `firmware/RDE_soft/App/scpi_def.c:271-274` | from an output that follows a known resistance, OFF leaves the terminals shorted exactly at zero ohms |
| `RelayState.OffExample` | `firmware/RDE_soft/App/scpi_def.c:271-274` | after 5 ohms and OFF both terminal relays are open |
| `RelayState.BitStep` | `firmware/RDE_soft/App/relay/relay_ctrl.c:252-264` | a single relay never touches the terminals and makes the resistance unknown |
| `RelayState.RawStep` | `firmware/RDE_soft/App/scpi_def.c:319-350` | RELay:RAW keeps the terminals safe and the digits meaningful |
| `RelayState.RawReports` | `firmware/RDE_soft/App/scpi_def.c:348-348` | after RELay:RAW the reported resistance is right exactly if the named relays realise it |
| `RelayState.RawExample` | `firmware/RDE_soft/App/scpi_def.c:348-348` | after 5 ohms and RELay:RAW 103 the device reports 5 ohms and the ladder has 999993 |
| `RelayState.RestoringStep` | `firmware/RDE_soft/App/scpi_def.c:221-409` | after a value, a decade, a single relay, switching on or a reset a known non-zero resistance is the ladder's, whatever RELay:RAW left |
| `RelayState.StepKeeps` | `firmware/RDE_soft/App/scpi_def.c:221-409` | every command keeps safety and digits, every command but RELay:RAW keeps realisation and terminals as well |
| `RelayState.RunSafe` | `firmware/RDE_soft/App/scpi_def.c:221-409` | over every run of commands CONNECT and SHORT are never both closed and CONNECT is open while the output is off |
| `RelayState.RunRestored` | `firmware/RDE_soft/App/scpi_def.c:221-409` | over every run in which each RELay:RAW is later followed by such a command, a known non-zero resistance is the ladder's in the end, and the terminals follow it |
| `RelayState.ReportStep` | `firmware/RDE_soft/App/scpi_def.c:221-409` | exactly when the report and the terminals are right after one command |
| `RelayState.RunExactly` | `firmware/RDE_soft/App/scpi_def.c:221-409` | exactly when they are right after a run: the last command that restores or is a RELay:RAW restores, or names relays that realise what is reported |
| `RelayState.RunFromStart` | `firmware/RDE_soft/App/relay/relay_ctrl.c:122-134` | all of it for every run from start-up |
| `RelaySteps.ValueSets` | `firmware/RDE_soft/App/relay/relay_ctrl.c:161-185` | a value up to 999999 is reported with its decimal digits and the output on; a larger one does nothing |
| `RelaySteps.DecadeSets` | `firmware/RDE_soft/App/relay/relay_ctrl.c:221-243` | a digit of a decade replaces that digit alone, the reported resistance is known and moves by that much, and the output is on |
| `RelaySteps.StateSets` | `firmware/RDE_soft/App/relay/relay_ctrl.c:252-264` | RELay:STATe closes or opens exactly the relay it names and makes the resistance unknown |
| `RelaySteps.RawSets` | `firmware/RDE_soft/App/scpi_def.c:319-350` | RELay:RAW closes exactly the decade relays it names, sets the terminals by the output flag and changes no report; a value out of range or none at all does nothing |
| `RelaySteps.OutputSets` | `firmware/RDE_soft/App/relay/relay_ctrl.c:192-214` | OUTPut changes the flag and no other report; off opens CONNECT alone |
| `RelaySteps.ResetSets` | `firmware/RDE_soft/App/scpi_def.c:221-409` | a reset reports zero ohms with the output on and closes SHORT alone |
| `RelaySteps.StartsOpen` | `firmware/RDE_soft/App/relay/relay_ctrl.c:122-134` | at start-up no relay is closed, the output is off and zero ohms are reported |
| `RelaySteps.UnknownExactly` | `firmware/RDE_soft/App/scpi_def.c:221-409` | over every run from a known resistance it is unknown if and only if a single relay was set and no value, decade or reset came after it |
| `RelaySteps.UnknownFromStart` | `firmware/RDE_soft/App/relay/relay_ctrl.c:122-134` | in particular from start-up |
| `RelayControl.RelayCtrl.BuildData` | `firmware/RDE_soft/App/relay/relay_ctrl.c:93-102` | the loop yields the relays of the digits |
| `RelayControl.RelayCtrl.SetRaw` | `firmware/RDE_soft/App/relay/relay_ctrl.c:137-142` | the relays remembered are the ones sent |
| `RelayControl.RelayCtrl.SetResistance` | `firmware/RDE_soft/App/relay/relay_ctrl.c:161-185` | digits, relays, value and output flag, clamped to 999999 |
| `RelayControl.RelayCtrl.SetOutput` | `firmware/RDE_soft/App/relay/relay_ctrl.c:192-214` | relays and flag after switching the output |
| `RelayControl.RelayCtrl.SetDecade` | `firmware/RDE_soft/App/relay/relay_ctrl.c:221-243` | the value recomputed from the digits, and its relays; bad arguments change nothing |
| `RelayControl.RelayCtrl.SetBit` | `firmware/RDE_soft/App/relay/relay_ctrl.c:252-264` | one relay changed and the resistance unknown; bad arguments change nothing |
| `RelayControl.RelayCtrl.RelayRawSet` | `firmware/RDE_soft/App/scpi_def.c:319-350` | the named relays and the terminal relays of the output flag, or no change on an error |
| `RelayControl.RelayCtrl.ExecuteAll` | `firmware/RDE_soft/App/scpi_def.c:221-409` | every run keeps safety and meaning of the digits in the driver's variables |
| `RelayControl.RunDriver` | `firmware/RDE_soft/App/relay/relay_ctrl.c:122-134` | the driver from start-up on: its variables after every run are those of the model, with what RunFromStart says of them |
| `RelayControl.TotalMilliohm` | `firmware/RDE_soft/App/relay/relay_cal.c:153-165` | the 32-bit sum of the table entries of the present digits, of digit 0 when they are unknown |
| `RelayControl.NominalTotal` | `firmware/RDE_soft/App/relay/relay_cal.c:25-32` | the nominal total of the lower decades is a thousand times what their digits mean |
| `RelayControl.NominalIsResistance` | `firmware/RDE_soft/App/relay/relay_cal.c:153-165` | with the nominal table the total is 1000 times the resistance and cannot overflow 32 bits |
| `RelayControl.NominalUnknown` | `firmware/RDE_soft/App/relay/relay_cal.c:153-165` | and 0 while the digits are not known |
| `ExpressionLists.ReadNumericRange` | `firmware/RDE_soft/App/libscpi/src/expression.c:53-69` | a number, a range of two, an incomplete range, or nothing |
| `ExpressionLists.ExprNumericListEntry` | `firmware/RDE_soft/App/libscpi/src/expression.c:84-120` | the entry at the index, the end of the list, or an error, with exactly one error reported for a malformed list |
| `ExpressionLists.ReadChannelSpec` | `firmware/RDE_soft/App/libscpi/src/expression.c:192-214` | all coordinates are counted, the first ones stored, the rest of the array untouched |
| `ExpressionLists.ReadChannelRange` | `firmware/RDE_soft/App/libscpi/src/expression.c:226-254` | both ends of a range with equal dimensions, or an error |
| `ExpressionLists.ExprChannelListEntry` | `firmware/RDE_soft/App/libscpi/src/expression.c:267-316` | the entry at the index with its dimensions and coordinates, the end of the list, or an error |
| `ExpressionLists.SpecRead` | `firmware/RDE_soft/App/libscpi/src/expression.c:192-214` | a printed specification is read back coordinate by coordinate, each clamped to 32 bits |
| `ExpressionLists.StoredCoordinate` | `firmware/RDE_soft/App/libscpi/src/utils.c:273-277` | a stored coordinate is the number itself within 32 bits and the nearest bound outside them |
| `ExpressionLists.ChannelListRead` | `firmware/RDE_soft/App/libscpi/src/expression.c:267-316` | the accessor returns entry k of a printed list for each k below its length and NO_MORE beyond |
| `ExpressionLists.NumericListRead` | `firmware/RDE_soft/App/libscpi/src/expression.c:84-120` | the same for numeric lists: the tokens are the printed numbers and evaluate to them |
| `ExpressionLists.NumericListRoundTrip` | `firmware/RDE_soft/App/libscpi/src/expression.c:84-120` | end to end: the printed list is scanned as one expression parameter and read back entry by entry |
| `ExpressionLists.ChannelListRoundTrip` | `firmware/RDE_soft/App/libscpi/src/expression.c:267-316` | end to end for channel lists, with dimensions and range flags |
| `ExpressionLists.MismatchedRange` | `firmware/RDE_soft/App/libscpi/src/expression.c:226-254` | a range between places of different dimensions is an error |
| `ExpressionLists.MarkedNumber` | `firmware/RDE_soft/App/libscpi/src/expression.c:84-120` | a dimension mark in a numeric list is an error for every later entry |
| `ExpressionLists.ParenthesesRead` | `firmware/RDE_soft/App/libscpi/src/lexer.c:806-830` | expression characters in parentheses are one expression parameter |
| `ExpressionLists.UnclosedRead` | `firmware/RDE_soft/App/libscpi/src/lexer.c:806-830` | without the closing parenthesis they are no parameter |
| `Mdns.QueryWantsVxi11` | `firmware/RDE_soft/App/mdns/mdns.c:106-144` | for every packet the walk over questions terminates, reads nothing outside the packet, and computes Wants |
| `Mdns.ReadName` | `firmware/RDE_soft/App/mdns/mdns.c:120-132` | the collected name and the 16-bit cursor, or a broken label |
| `Mdns.CopyLabel` | `firmware/RDE_soft/App/mdns/mdns.c:128-130` | a label is copied and passed only as far as the name buffer has room |
| `Mdns.NameIsService` | `firmware/RDE_soft/App/mdns/mdns.c:138-141` | the comparison of the collected name, up to its first NUL, with the two service names |
| `Mdns.NameDecoded` | `firmware/RDE_soft/App/mdns/mdns.c:120-132` | encoded labels that fit the name buffer, ended by the root or by a pointer, are decoded to their dotted name, and the cursor ends behind them |
| `Mdns.FullName` | `firmware/RDE_soft/App/mdns/mdns.c:123-130` | once the name buffer is full every byte is taken for a label length: the name is passed exactly if all of them are possible lengths |
| `Mdns.LongName` | `firmware/RDE_soft/App/mdns/mdns.c:120-132` | so a longer name of 7-bit labels is cut to 63 characters and passed, or the query is given up, exactly as its bytes behind the full buffer say |
| `Mdns.DottedInjective` | `firmware/RDE_soft/App/mdns/mdns.c:138-140` | different label sequences have different dotted names |
| `Mdns.QuestionRead` | `firmware/RDE_soft/App/mdns/mdns.c:119-142` | one encoded question: whether it can be passed, its name, its type and where the next starts |
| `Mdns.QuestionsAnswered` | `firmware/RDE_soft/App/mdns/mdns.c:119-143` | the walk answers yes exactly if some question asks for the service and every question before it can be passed |
| `Mdns.BrokenOff` | `firmware/RDE_soft/App/mdns/mdns.c:106-134` | a question that breaks off before its type and class is not answered |
| `Mdns.QueryAnswered` | `firmware/RDE_soft/App/mdns/mdns.c:106-144` | an encoded message with names of any length, compressed or not, is wanted if and only if it is a query, some question is a PTR whose labels are one of the two service names, and every question before it can be passed |
| `Mdns.OneMoreCharacter` | `firmware/RDE_soft/App/mdns/mdns.c:127-130` | a name of a 63-character label and one more character is passed exactly if that character's code is at most 63 and that many bytes follow it |
| `Mdns.LongNameHides` | `firmware/RDE_soft/App/mdns/mdns.c:127-130` | a first name of a 63-character label and one letter makes the whole query unanswered |
| `Mdns.LongNameExample` | `firmware/RDE_soft/App/mdns/mdns.c:127-130` | such a query, followed by a question for the service |
| `Mdns.CompressedExample` | `firmware/RDE_soft/App/mdns/mdns.c:126-126` | a service name whose end is compressed to a pointer is not recognised |

## Left out

- Hardware and drivers: SPI and I2C transfers, delays, GPIO, sockets, USB, and the CRC peripheral (any function of the bytes).
- Floating point conversion, units and special numbers, and the C library's number parsing beyond leading integers, which strtol clamps to its 32-bit long.
- Numeric suffixes (`#`) in patterns and malformed patterns: no row of the board's table uses them.
- Semicolon and line end between responses, and the control callback for service requests: the board registers none of the latter; a callback's own output is modelled by the response writers only.
- Transition filters and user-defined registers, which the board's register tables do not contain.
- CommandMatch.MatchCommand: patterns without numeric suffixes only.
- CommandMatch.MatchWords: patterns without numeric suffixes only.
- CommandMatch.MatchPattern: keywords without numeric suffixes only.
- Parser.Context.Parse: the return value, which depends on the callbacks, and the line end written after responses are left out.
- Parser.Context.Input: the return value is left out for the same reason.
- Parameters.CommandContext.Callback: callbacks that mix in optional parameters are left out.
- Parameters.CommandContext.ProcessCommand: models callbacks that read n mandatory parameters, without the semicolon and first_output bookkeeping.
- Null pointers passed by a caller (the system error branches), and the tags and numbers a command may carry.
- `SCPI_ErrorTranslate`: the standard text of a code is a parameter of the error report.
- Network handlers, calibration setters and getters, identification, serial number, XDR encoding and the mDNS response writer.
- The relay supply switch and the relay latch, which the driver's state does not depend on.
- The scanner state holds the characters of its window as a value; scanning never writes to the buffer, so sharing is not observable, but the model does not show it.
- ErrorHeap.Heap.StrNDup: is stated for a positive length or an empty text, which is what SCPI_ErrorPushEx guarantees; with length 0 and a non-empty text the C code would store a lone zero that no error owns.
- ErrorQueue.ErrorContext.PushEx: is stated for codes other than 0; pushing 0 would queue an entry that reads as "no error" and turn the indicator off.
- ErrorQueue.ErrorContext.Execute: register writes through it exclude the status byte itself, which no command of the board writes.
- ErrorQueue.ErrorContext.ExecuteAll: the same.
- Responses.ResultContext.ResultArbitraryBlockHeader: is stated for at most 999999999 bytes; for more the C code has no room for the terminator of its length digits.
- Responses.ResultContext.ResultArbitraryBlock: is stated for at most 999999999 bytes for the same reason.
- FramDevice.Fram.Write: power and bus errors cut a write short or are reported after its last byte; they never store a wrong byte.
- FramStore.NetSaveAtomic: assumes that no block mixed from two versions passes its CRC unless it holds one of them.
- FramStore.CalSaveAtomic: makes the same assumption for data and configuration separately, and does not tie the two to each other, nor does the code.
- FramDevice.RelayCal.ReadBlock: on a bus that refuses reads nothing is said about the data but their magic number, since the C code checks whatever its buffer then holds.
- FramDevice.RelayCal.RestoreCopy: says no more of the data on such a bus either.
- CommandChoice.PatternExactly: the converse is stated for patterns with a query mark or with keywords that have a short form; elsewhere the failing command can be empty, which no caller passes.
- FramDevice.RelayCal.Init: on such a bus says only that the configuration has its magic number and that the network blocks are untouched.
- RelayControl.RelayCtrl.RelayRawSet: works on the values that could be read; a value that cannot be read ends the list, as in the C loop, and its error is that of the parameter functions.
- Mdns.QueryAnswered: of names that do not fit the name buffer it covers those with 7-bit labels.
