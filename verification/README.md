# Verified model of the ChromeOS Ash bridges, the in-page terminal and the Google Balls motion

This project models, in Dafny 4.11, the parts of the repository whose correctness depends on whole runs:

* **The terminal** of `terminal-ui.js`: a scanner that cuts text into tokens (`Lexer`), ragged rows of styled
  cells with a cursor (`Screen`), the style string that is parsed and printed again by every SGR sequence
  (`Sgr`), the HTML printer (`Html`), and the program itself as a class whose methods change shared variables
  in loops (`TerminalUi`). `Grid` is the independent specification: an unbounded grid with a width for each row,
  which reads commands and parameters by itself and leaves exactly one screen.
* **The protobuf wire code** of the bridges: varints with both readers (`Varint`), the field encoder and the two
  field decoders (`Wire`, `WireLaws`), a plain reader of the format to hold them against (`WireReader`), all that
  the uint decoder can do when a declared length sends its offset back (`UintLoop`, over the pigeonhole argument of
  `OffsetLoop`), UTF-8 validity (`Utf8`), the power bridge's encoder and request parser (`Power`, `BacklightLoop`
  for offsets that go back, and `Floats` for what brightness values mean as numbers), and the Crostini bridge's
  session (`Crostini`) with what its clients can rely on while handlers overlap (`CrostiniRuns`) and what its
  messages say field by field (`CrostiniMessages`).
* **Desktop files and the registry**: both copies of the parser (`DesktopFiles`), the index against direct lookup
  (`DesktopIndex`), and the merge into the preferences (`Registry`).
* **Concurrent and dynamic state**: tethering with hotspot attempts that finish at any time (`Tethering`), the
  NetworkManager snapshot and its object paths (`Network`), the poll loop and what an observer of its signals
  knows (`Poller`), and the damped spring of a particle over the reals (`Spring`) with the depth that it drives
  (`Depth`).

Code that changes state is modelled by classes and loops, each method proved equal to a value function; the
promises are then proved about those functions, over every input or every run.

Conventions. Go byte strings are `seq<byte>`; 64-bit values are naturals below 2^64 with the wrap of `int(length)`
and of offset sums written out (`Wire.ToInt`, `Wire.Wrap`); shifts and masks are `/`, `%` and `+` on disjoint bits.
Terminal text is a sequence of UTF-16 code units. A float64 is its bit pattern. The UTF-8 test of the string
decoder is a parameter, so its laws hold for any test.

Results that differ from what one might expect:

* Text may be cut in two exactly where no escape sequence is cut (`Screen.SplitExactly`).
* The string decoder returns exactly when every declared length fits the offset arithmetic, and otherwise slices out
  of range (`WireLaws.DecodesExactly`). The offset of the uint decoder goes back at some turn exactly when one does not
  fit (`UintLoop.GoesBackExactly`). Taken by itself that function may then return all the same, index out of range, or
  go round for ever, and `UintLoop.Behaviour` decides which in one turn more than there are bytes. The program never
  gets there: its only call comes after the string decoder has been through the same bytes, and then the uint decoder
  always returns the forward decoding (`UintLoop.AtTheOnlyCall`).
* The brightness request parser takes the raw request, so there all these outcomes are real
  (`BacklightLoop.GoesBackExactly`); going back, it can even find the brightness inside the payload of another field
  (`BacklightLoop.FindsInsidePayload`).
* Of two overlapping ListVms requests the first may be answered with the owner id of the second
  (`CrostiniRuns.AnsweredWithAnother`); `CrostiniRuns.ReadAfterLearning` says exactly whose it is.
* The VM record nested in a ListVms response passes the bridge's own string decoder exactly when the length prefix
  of the owner id is valid UTF-8 by itself (`Crostini.ListVmsNestedOwner`): always below 128 bytes, never from 128 to
  16383, and above that for certain lengths only (`Crostini.PrefixValidExactly`).
* A hotspot attempt of the latest Enable may succeed and yet be reported idle, when an older attempt fails late
  (`Tethering.LateFailureHidesSuccess`); `Tethering.StatusExactly` says exactly what is reported.
* The reason given for being idle is "user_exit" even when an attempt failed (`Tethering.ReportExactly`).
* An SGR sequence without parameters counts as one with a single 0, so the composition law adds that 0
  (`Sgr.Composition`).

The code departs from ECMA-48 in places and the model follows the code: EL 1 stops before the cursor, ED 1 drops
the rows above and homes the cursor, and `38;5;n` is three separate SGR parameters.

## Model

| member | source | states |
|---|---|---|
| Lexer.ScanCsi | build_files/cros/terminal-ui.js:177-178 | the scan stops at the first letter, or at the end when there is none |
| Lexer.ScanOsc | build_files/cros/terminal-ui.js:191-192 | the scan stops at the first BEL or ESC-backslash, or at the end |
| Lexer.ParamsOfParts | build_files/cros/terminal-ui.js:180-184 | strings of digits joined by semicolons give their values in order, an empty one counting as 0 |
| Lexer.ParamsIgnoreJunk | build_files/cros/terminal-ui.js:180 | a character other than a digit or semicolon makes no difference wherever it stands |
| Lexer.ParamsRoundTrip | build_files/cros/terminal-ui.js:180-184 | parameters printed in decimal are read back as they are |
| Lexer.ParseDigitsSnoc | build_files/cros/terminal-ui.js:184 | a string of digits stands for its decimal value, the empty one for 0 |
| Lexer.Next | build_files/cros/terminal-ui.js:173-213 | every turn of the main loop moves forward, so it ends on every string |
| Lexer.NextExtends | build_files/cros/terminal-ui.js:173-213 | a complete first token is the same whatever text follows |
| Lexer.LexAppend | build_files/cros/terminal-ui.js:171-214 | the tokens of a complete text followed by any text are those of the two |
| Lexer.PieceReads | build_files/cros/terminal-ui.js:173-213 | by code units: LF, CR and BS are those tokens, TAB and units from space on are printed, ESC `[` up to a letter is that sequence with its parameters, OSC strings and two-unit escapes are skipped |
| Lexer.PiecesRead | build_files/cros/terminal-ui.js:171-214 | any such pieces in a row are read piece by piece |
| Lexer.CutIntoPieces | build_files/cros/terminal-ui.js:171-214 | every complete text is made of such pieces |
| Lexer.CutOff | build_files/cros/terminal-ui.js:176-196 | an incomplete text is a complete one and a token without effect, which swallows one more letter |
| Screen.StreamSplit | build_files/cros/terminal-ui.js:171-214 | processing a complete text and then any other is processing them joined |
| Screen.SplitFails | build_files/cros/terminal-ui.js:171-214 | cutting inside an escape sequence is visible with one further letter |
| Screen.SplitExactly | build_files/cros/terminal-ui.js:171-214 | a cut is invisible for every continuation if and only if no escape sequence is cut |
| Screen.Flatten | build_files/cros/terminal-ui.js:171-226 | any number of complete texts act like their concatenation |
| Screen.LexValid | build_files/cros/terminal-ui.js:197-212 | of the C0 control characters only the tab is ever printed into a cell |
| Screen.ApplyKeepsValid | build_files/cros/terminal-ui.js:124-169 | every step keeps the cursor row inside the rows, cells printable and styles valid |
| Screen.ReachableValid | build_files/cros/terminal-ui.js:171-226 | the same over every run of texts |
| Screen.CursorMoves | build_files/cros/terminal-ui.js:125-132 | A, B, C, D and G move by their parameter, 1 when it is absent or 0 |
| Screen.CursorPlaced | build_files/cros/terminal-ui.js:133-146 | H and f go to a row and column counted from 1; s and u save and restore |
| Grid.StepRefines | build_files/cros/terminal-ui.js:124-169 | each operation on the ragged rows is the stated paint, erase, shift or cursor move on the unbounded grid |
| Grid.OneState | build_files/cros/terminal-ui.js:6-11 | a board is shown by one state only, so the refinement leaves no freedom |
| Grid.PutShows | build_files/cros/terminal-ui.js:59-65 | putChar changes exactly one cell, and the width of its row as needed |
| Grid.EraseInLineShows | build_files/cros/terminal-ui.js:147-153 | K by its parameter: each mode blanks exactly its region of the cursor row and sets its width |
| Grid.EraseInDisplayShows | build_files/cros/terminal-ui.js:154-168 | J by its parameter: each mode blanks or shifts exactly its region and sets widths, height and cursor |
| Grid.MovesShow | build_files/cros/terminal-ui.js:124-146 | all other sequences leave every cell alone and move the cursor as the grid says |
| Grid.InitialRefines | build_files/cros/terminal-ui.js:6-11 | the first screen shows the empty grid |
| Grid.ScreenRefinesGrid | build_files/cros/terminal-ui.js:171-226 | over every run the ragged rows refine the grid, cursor row included |
| Sgr.ParsePrint | build_files/cros/terminal-ui.js:95-122 | printing an ordered map of known declarations and parsing it again is the identity |
| Sgr.SetSgrKeepsValid | build_files/cros/terminal-ui.js:95-122 | a style string always is the printed form of distinct known properties |
| Sgr.Composition | build_files/cros/terminal-ui.js:95-122 | two SGR sequences leave the same string as one with both parameter lists |
| Sgr.SetSgrMeans | build_files/cros/terminal-ui.js:95-122 | the string, read as CSS, means what the parameters say, attribute by attribute and colour by colour |
| Sgr.EmptyResets | build_files/cros/terminal-ui.js:95-104 | no parameter at all resets, like a single 0 |
| Sgr.TablesMean | build_files/cros/terminal-ui.js:13-42 | the three colour tables are the RGB values of the eight colours, dim and bright |
| Sgr.PutNew | build_files/cros/terminal-ui.js:103-115 | a new property goes to the end |
| Sgr.PutOld | build_files/cros/terminal-ui.js:103-115 | one that is set already keeps its place |
| Sgr.DeleteOld | build_files/cros/terminal-ui.js:107-111 | deleting takes out one declaration and keeps the order of the others |
| Sgr.PrintSnoc | build_files/cros/terminal-ui.js:119-121 | declarations are printed in order as property:value with semicolons between |
| Html.EscapePasses | build_files/cros/terminal-ui.js:52-57 | the three chained replaces are one per-unit escape |
| Html.EscapedIsInert | build_files/cros/terminal-ui.js:52-57 | escaped text has no raw angle bracket and no new newline |
| Html.EscapesAre | build_files/cros/terminal-ui.js:52-57 | the three units become `&amp;`, `&lt;` and `&gt;`, every other stays |
| Html.SpanIs | build_files/cros/terminal-ui.js:75-79 | a styled run is a span with the style in double quotes, an unstyled one plain text |
| Html.LinesJoined | build_files/cros/terminal-ui.js:67-91 | lines are joined by line feeds |
| Html.RunsCover | build_files/cros/terminal-ui.js:69-90 | the runs of a line are its cells in order |
| Html.RunsMaximal | build_files/cros/terminal-ui.js:69-90 | runs are non-empty and neighbours differ in style |
| Html.PrinterInversion | build_files/cros/terminal-ui.js:67-91 | the HTML of a valid screen reads back as exactly its rows of cells |
| Html.ReachablePrinterInversion | build_files/cros/terminal-ui.js:52-93 | the same from every state the terminal can reach |
| TerminalUi.Terminal.constructor | build_files/cros/terminal-ui.js:6-11 | the initial screen |
| TerminalUi.Terminal.EnsureRow | build_files/cros/terminal-ui.js:44-46 | empty rows are appended until the cursor row exists |
| TerminalUi.Terminal.PutChar | build_files/cros/terminal-ui.js:59-65 | the loops do what `Screen.PutChar` says |
| TerminalUi.Terminal.SetSgr | build_files/cros/terminal-ui.js:95-122 | the loops leave the style string `Sgr.SetSgr` says |
| TerminalUi.Terminal.EraseInLine | build_files/cros/terminal-ui.js:147-153 | the padding and blanking loops do what `Screen.EraseInLine` says |
| TerminalUi.Terminal.EraseInDisplay | build_files/cros/terminal-ui.js:154-168 | the splices do what `Screen.EraseInDisplay` says |
| TerminalUi.Terminal.ProcessCsi | build_files/cros/terminal-ui.js:124-169 | one control sequence acts as `Screen.ProcessCsi` |
| TerminalUi.Terminal.ProcessText | build_files/cros/terminal-ui.js:171-214 | the scanning loops act as the tokens of the text, one after the other |
| TerminalUi.Terminal.RenderLine | build_files/cros/terminal-ui.js:69-90 | the run-collecting loop prints the runs of the line |
| TerminalUi.Terminal.Render | build_files/cros/terminal-ui.js:67-91 | the HTML of all lines |
| TerminalUi.Terminal.Write | build_files/cros/terminal-ui.js:216-226 | after every write the screen is valid and the HTML shown reads back as it |
| Varint.AppendVarint | build_files/cros/dbus-bridges/cmd/crostini-bridge/main.go:111-117 | appends the encoding of the value |
| Varint.DecodeVarint | build_files/cros/dbus-bridges/cmd/crostini-bridge/main.go:281-291 | value and length as `Varint.Decode` has them |
| Varint.DecodeMeans | build_files/cros/dbus-bridges/cmd/crostini-bridge/main.go:281-291 | decoding succeeds if and only if a varint of at most ten bytes is there, with its length and its value modulo 2^64 |
| Varint.RoundTrip | build_files/cros/dbus-bridges/cmd/crostini-bridge/main.go:281-291 | every 64-bit value takes 1 to 10 bytes and decodes to itself whatever follows |
| Varint.EncodeShortest | build_files/cros/dbus-bridges/cmd/crostini-bridge/main.go:111-117 | the encoder writes the shortest varint of a value |
| Varint.ReadProtoVarint | build_files/cros/dbus-bridges/cmd/power-bridge/main.go:307-322 | the second reader's loop |
| Varint.ReadersAgree | build_files/cros/dbus-bridges/cmd/power-bridge/main.go:307-322 | on every buffer and offset both readers succeed together with one value and next offset |
| Wire.AppendsBytes | build_files/cros/dbus-bridges/cmd/crostini-bridge/main.go:123-133 | appendString and appendBytes add one length-delimited field |
| Wire.AppendsVarint | build_files/cros/dbus-bridges/cmd/crostini-bridge/main.go:143-146 | appendUint64 adds one varint field |
| Wire.AppendsBool | build_files/cros/dbus-bridges/cmd/crostini-bridge/main.go:135-141 | appendBool adds one varint field of value 0 or 1 |
| Wire.DecodeStringFields | build_files/cros/dbus-bridges/cmd/crostini-bridge/main.go:293-328 | the loop finds what `Wire.Strings` says, `None` standing for a slice out of range |
| WireLaws.WrapsExactly | build_files/cros/dbus-bridges/cmd/crostini-bridge/main.go:308-318 | a turn wraps if and only if the declared length ends beyond 2^63 - 1 |
| WireLaws.SameForwardOffsets | build_files/cros/dbus-bridges/cmd/crostini-bridge/main.go:293-359 | up to the first declared length that does not fit, both decoders read tags at the same offsets |
| WireLaws.OffsetsAdvance | build_files/cros/dbus-bridges/cmd/crostini-bridge/main.go:293-359 | up to there the offsets strictly advance inside the data |
| WireLaws.DecodesExactly | build_files/cros/dbus-bridges/cmd/crostini-bridge/main.go:293-328 | the string decoder returns if and only if every length declared at a visited offset fits; exactly then the forward decoding of uints is whole |
| UintLoop.DecodeUint64Fields | build_files/cros/dbus-bridges/cmd/crostini-bridge/main.go:330-359 | the loop returns what `UintLoop.Behaviour` says, or panics or never ends where it says so |
| UintLoop.BehaviourExactly | build_files/cros/dbus-bridges/cmd/crostini-bridge/main.go:330-359 | it returns a map, or panics, if and only if some number of turns comes to that; it never ends if and only if every turn goes on |
| UintLoop.Lockstep | build_files/cros/dbus-bridges/cmd/crostini-bridge/main.go:293-359 | on every byte string the uint decoder first visits all the offsets of the string decoder; then it returns if every length fits, and goes back where the string decoder slices out of range if one does not |
| UintLoop.FitsFinds | build_files/cros/dbus-bridges/cmd/crostini-bridge/main.go:330-359 | if every length fits, the call returns the forward decoding |
| UintLoop.ForwardFound | build_files/cros/dbus-bridges/cmd/crostini-bridge/main.go:330-359 | where the forward decoding is whole, the call returns it |
| UintLoop.MessageFound | build_files/cros/dbus-bridges/cmd/crostini-bridge/main.go:330-359 | on every serialised message the call returns the last varint of every field |
| UintLoop.GoesBackExactly | build_files/cros/dbus-bridges/cmd/crostini-bridge/main.go:347-349 | the offset goes back at some turn if and only if some declared length does not fit |
| UintLoop.AtTheOnlyCall | build_files/cros/dbus-bridges/cmd/crostini-bridge/main.go:668-670 | on bytes the string decoder gets through, as at the only call, the uint decoder returns the forward decoding |
| UintLoop.DecodeIconRequest | build_files/cros/dbus-bridges/cmd/crostini-bridge/main.go:668-675 | the handler's decoding panics if and only if some declared length does not fit; otherwise it gives the id and a size from 16 to 512 |
| UintLoop.IconSizeMeans | build_files/cros/dbus-bridges/cmd/crostini-bridge/main.go:672-675 | a size from 16 to 512 is taken, anything else is 48 |
| UintLoop.EntriesStay | build_files/cros/dbus-bridges/cmd/crostini-bridge/main.go:330-359 | no turn takes an entry out, and going back leaves the map as it is |
| UintLoop.NeverEndsExample | build_files/cros/dbus-bridges/cmd/crostini-bridge/main.go:330-359 | a length of 2^64 - 11 in eleven bytes: the function by itself never ends; the string decoder slices out of range |
| UintLoop.PanicsExample | build_files/cros/dbus-bridges/cmd/crostini-bridge/main.go:330-359 | with 2^64 - 12 the function by itself indexes at -1 |
| UintLoop.ReturnsAfterGoingBack | build_files/cros/dbus-bridges/cmd/crostini-bridge/main.go:330-359 | an input on which the function by itself reads tags at 0, 4 and 2 and returns an empty map, while the string decoder slices out of range |
| WireLaws.CutOffVarint | build_files/cros/dbus-bridges/cmd/crostini-bridge/main.go:293-359 | a truncated inner varint ends both loops, with value 0 or an empty payload recorded |
| WireLaws.LastStringWins | build_files/cros/dbus-bridges/cmd/crostini-bridge/main.go:313-317 | per field number the last payload that passes the test |
| WireLaws.LastUintWins | build_files/cros/dbus-bridges/cmd/crostini-bridge/main.go:342-345 | per field number the last varint |
| WireLaws.FieldTurn | build_files/cros/dbus-bridges/cmd/crostini-bridge/main.go:293-359 | one turn of either decoder consumes exactly one serialised field |
| WireLaws.MessageRoundTrip | build_files/cros/dbus-bridges/cmd/crostini-bridge/main.go:281-359 | serialising and decoding any message gives the last value of every field |
| WireLaws.Merge | build_files/cros/dbus-bridges/cmd/crostini-bridge/main.go:281-359 | decoding a message followed by anything is the two decodings, the second overriding the first |
| WireReader.ReadSerialized | build_files/cros/dbus-bridges/cmd/crostini-bridge/main.go:111-146 | a plain reader of the format finds exactly the fields that were written |
| WireReader.DecodersRead | build_files/cros/dbus-bridges/cmd/crostini-bridge/main.go:281-359 | on every well-formed message, shortest varints or not, both decoders give the last value per field number |
| WireReader.CutPayload | build_files/cros/dbus-bridges/cmd/crostini-bridge/main.go:308-318 | a payload cut off by the end of the data is not recorded, not even in part |
| WireReader.CutFixed | build_files/cros/dbus-bridges/cmd/crostini-bridge/main.go:319-322 | nor does a cut 64-bit or 32-bit value make a difference |
| WireReader.UnknownWireType | build_files/cros/dbus-bridges/cmd/crostini-bridge/main.go:323-325 | the other four wire types end the decoding, whatever follows |
| WireReader.NoTag | build_files/cros/dbus-bridges/cmd/crostini-bridge/main.go:297-300 | so do bytes that do not start with a varint |
| WireReader.ShortForm | build_files/cros/dbus-bridges/cmd/crostini-bridge/main.go:111-146 | the very bytes that are written for fields 1 to 15 and short values |
| Utf8.ValidAppend | build_files/cros/dbus-bridges/cmd/crostini-bridge/main.go:314 | behind a valid string validity depends on the rest alone |
| Utf8.ValidExactly | build_files/cros/dbus-bridges/cmd/crostini-bridge/main.go:314 | a string is valid exactly when it is the encoding of some Unicode scalar values |
| Power.WordRoundTrip | build_files/cros/dbus-bridges/cmd/power-bridge/main.go:327-329 | a 64-bit word survives its eight little-endian bytes |
| Power.BytesAt | build_files/cros/dbus-bridges/cmd/power-bridge/main.go:68-70 | the bytes of a word are its digits to base 256, lowest first |
| Power.ClampPercent | build_files/cros/dbus-bridges/cmd/power-bridge/main.go:334-345 | NaN gives 100, any other value the median of 0, itself and 100 in the order of numbers; a value from 0 to 100 keeps its very bits |
| Floats.HundredIs | build_files/cros/dbus-bridges/cmd/power-bridge/main.go:341-343 | the bits of the upper bound are those of the number 100 |
| Floats.ClampMeans | build_files/cros/dbus-bridges/cmd/power-bridge/main.go:334-345 | a finite number from 0 to 100 keeps its bits, a lower one becomes 0, a higher one 100 |
| Floats.ClampElse | build_files/cros/dbus-bridges/cmd/power-bridge/main.go:334-345 | minus infinity becomes 0, plus infinity and every NaN 100 |
| Power.WrapsExactly | build_files/cros/dbus-bridges/cmd/power-bridge/main.go:265-305 | the forward parse meets a length that sends the offset back if and only if some length declared before the field sought does not fit |
| Power.ParseSkips | build_files/cros/dbus-bridges/cmd/power-bridge/main.go:278-302 | fields 1 to 15 that are not the one sought make no difference |
| Power.ParseMessage | build_files/cros/dbus-bridges/cmd/power-bridge/main.go:265-305 | on every message the first field-1 fixed64 is returned, and without one the parser fails |
| Power.VarintSkipped | build_files/cros/dbus-bridges/cmd/power-bridge/main.go:279-285 | a varint of any length is skipped; a cut one ends the request |
| Power.WordSkipped | build_files/cros/dbus-bridges/cmd/power-bridge/main.go:272-288 | another 64-bit value is skipped; a short one is rejected |
| Power.HalfSkipped | build_files/cros/dbus-bridges/cmd/power-bridge/main.go:295-296 | a 32-bit value is skipped; a short one is rejected |
| Power.PayloadSkipped | build_files/cros/dbus-bridges/cmd/power-bridge/main.go:289-294 | a payload is skipped; a cut one is rejected |
| Power.LengthMissing | build_files/cros/dbus-bridges/cmd/power-bridge/main.go:289-293 | a payload without a length is rejected |
| Power.WireTypeUnknown | build_files/cros/dbus-bridges/cmd/power-bridge/main.go:297-298 | any other wire type is rejected, whatever follows |
| BacklightLoop.ParseSetBacklightBrightnessRequest | build_files/cros/dbus-bridges/cmd/power-bridge/main.go:265-305 | the loop returns what `BacklightLoop.Behaviour` says, or panics or never ends where it says so |
| BacklightLoop.BehaviourExactly | build_files/cros/dbus-bridges/cmd/power-bridge/main.go:265-305 | an outcome is had if and only if some turn ends with it; the call never ends if and only if every turn goes on |
| BacklightLoop.GoesBackExactly | build_files/cros/dbus-bridges/cmd/power-bridge/main.go:289-294 | the offset goes back at some turn if and only if some length before the field sought does not fit; otherwise the call returns what the forward parse says |
| BacklightLoop.MessageFinds | build_files/cros/dbus-bridges/cmd/power-bridge/main.go:265-305 | on every message of fields 1 to 15 the call finds the first brightness, and rejects one without |
| BacklightLoop.FindsFirst | build_files/cros/dbus-bridges/cmd/power-bridge/main.go:265-305 | the call returns the field-1 fixed64 behind any other such fields, whatever bytes follow it |
| BacklightLoop.BrightnessRoundTrip | build_files/cros/dbus-bridges/cmd/power-bridge/main.go:324-345 | an encoded brightness change is read back by the call as the clamped brightness |
| Power.BrightnessChangeReads | build_files/cros/dbus-bridges/cmd/power-bridge/main.go:324-332 | a brightness change is the clamped value in field 1 and the cause in field 2 |
| BacklightLoop.NeverEndsExample | build_files/cros/dbus-bridges/cmd/power-bridge/main.go:289-294 | a length of 2^64 - 11 sends the loop round for ever |
| BacklightLoop.PanicsExample | build_files/cros/dbus-bridges/cmd/power-bridge/main.go:289-294 | a length of 2^64 - 12 makes it index at -1 |
| BacklightLoop.FindsInsidePayload | build_files/cros/dbus-bridges/cmd/power-bridge/main.go:265-305 | an input on which it goes back and finds a brightness inside the payload of another field |
| Power.AppendTagged | build_files/cros/dbus-bridges/cmd/power-bridge/main.go:86-94 | the tag byte and the varint |
| Power.EncodePowerSupplyProps | build_files/cros/dbus-bridges/cmd/power-bridge/main.go:58-84 | the bytes are the serialised fields |
| Power.PowerPropertiesRoundTrip | build_files/cros/dbus-bridges/cmd/power-bridge/main.go:58-94 | for every battery state decoding recovers times, state and external power; the percentage, lowest byte first in field 7, and field 12 are there exactly with a battery, field 12 being 1 exactly when the relevant time is not positive |
| Crostini.Bridge.constructor | build_files/cros/dbus-bridges/cmd/crostini-bridge/main.go:101-109 | the initial owner id and a stopped session |
| Crostini.Bridge.SetOwnerID | build_files/cros/dbus-bridges/cmd/crostini-bridge/main.go:172-183 | reserved names change nothing, any other becomes the owner |
| Crostini.Bridge.LearnOwnerID | build_files/cros/dbus-bridges/cmd/crostini-bridge/main.go:185-192 | the first non-empty of fields 2, 1, 7, 5, 3 is proposed |
| Crostini.Bridge.MarkSessionReady | build_files/cros/dbus-bridges/cmd/crostini-bridge/main.go:160-164 | one step sets the flag |
| Crostini.Bridge.MarkSessionStopped | build_files/cros/dbus-bridges/cmd/crostini-bridge/main.go:166-170 | one step clears it |
| Crostini.Bridge.StartVm | build_files/cros/dbus-bridges/cmd/crostini-bridge/main.go:507-519 | marks the session ready, learns nothing and answers success |
| Crostini.Bridge.VmStarted | build_files/cros/dbus-bridges/cmd/crostini-bridge/main.go:267-273 | the first delayed signal holds the owner id of its moment |
| Crostini.Bridge.ContainerStarted | build_files/cros/dbus-bridges/cmd/crostini-bridge/main.go:194-203 | so does the second |
| Crostini.Bridge.StopVm | build_files/cros/dbus-bridges/cmd/crostini-bridge/main.go:548-553 | learns in one step, marks the session stopped in another, and answers success |
| Crostini.Bridge.GetVmInfo | build_files/cros/dbus-bridges/cmd/crostini-bridge/main.go:539-546 | learns and answers by name and session flag |
| Crostini.Bridge.ListVms | build_files/cros/dbus-bridges/cmd/crostini-bridge/main.go:527-531 | learns, then answers with the current owner |
| Crostini.Bridge.LaunchContainerApplication | build_files/cros/dbus-bridges/cmd/crostini-bridge/main.go:572-574 | field 4 is proposed as owner |
| Crostini.InitialOwnerOk | build_files/cros/dbus-bridges/cmd/crostini-bridge/main.go:101-104 | the initial owner id is an acceptable one |
| Crostini.ProposesExactly | build_files/cros/dbus-bridges/cmd/crostini-bridge/main.go:185-192 | the first of fields 2, 1, 7, 5 and 3 that is not empty; for a launch, field 4 |
| Crostini.RefusesExactly | build_files/cros/dbus-bridges/cmd/crostini-bridge/main.go:172-183 | the empty string and the six names are refused, anything else becomes the owner |
| Crostini.OwnerAlwaysOk | build_files/cros/dbus-bridges/cmd/crostini-bridge/main.go:172-192 | over every history of steps the owner id is non-empty, valid UTF-8 and none of the six reserved names |
| Crostini.OwnerIsLastProposal | build_files/cros/dbus-bridges/cmd/crostini-bridge/main.go:172-192 | the owner is the last acceptable proposal, or the initial one |
| Crostini.ReadyMeans | build_files/cros/dbus-bridges/cmd/crostini-bridge/main.go:154-170 | the session is ready if and only if the latest marking step was that of a StartVm |
| Crostini.GetVmInfoSucceedsExactly | build_files/cros/dbus-bridges/cmd/crostini-bridge/main.go:539-546 | the decoded response says success if and only if field 1 is "termina" and the latest marking step before the flag was read was that of a StartVm |
| Crostini.VmValidExactly | build_files/cros/dbus-bridges/cmd/crostini-bridge/main.go:228-232 | the VM record is valid UTF-8 if and only if the length prefix of the owner id is |
| Crostini.ListVmsNestedOwner | build_files/cros/dbus-bridges/cmd/crostini-bridge/main.go:228-237 | the nested VM record decodes to the current owner; the string decoder finds it exactly when that length prefix is valid UTF-8 |
| Crostini.PrefixValidExactly | build_files/cros/dbus-bridges/cmd/crostini-bridge/main.go:228-237 | for every length below 2^28, which prefixes are valid UTF-8: all below 128, none from 128 to 16383, then by their low groups |
| Crostini.OwnDecoderFindsExactly | build_files/cros/dbus-bridges/cmd/crostini-bridge/main.go:228-237 | the string decoder finds the record exactly for owner ids of such lengths |
| CrostiniRuns.LongOwnersComeAndGo | build_files/cros/dbus-bridges/cmd/crostini-bridge/main.go:228-237 | each made current by one request, owner ids of 127 and 16450 letters are found, one of 128 is not |
| CrostiniRuns.OwnerBounded | build_files/cros/dbus-bridges/cmd/crostini-bridge/main.go:172-192 | over every history the owner id is no longer than the longest request |
| CrostiniRuns.ListVmsAfterHistory | build_files/cros/dbus-bridges/cmd/crostini-bridge/main.go:527-531 | after every history of steps on requests of at most 128 MiB the response decodes, nested record included, to the current owner |
| CrostiniRuns.SignalsNameOwner | build_files/cros/dbus-bridges/cmd/crostini-bridge/main.go:507-519 | over every history both delayed signals decode to the owner id current when they are sent |
| CrostiniRuns.ReachableExactly | build_files/cros/dbus-bridges/cmd/crostini-bridge/main.go:172-192 | the owner ids of at most 128 MiB that some history makes current are exactly the acceptable ones |
| CrostiniRuns.ReadAfterLearning | build_files/cros/dbus-bridges/cmd/crostini-bridge/main.go:527-531 | a handler reads the owner id it learned, or the last acceptable one proposed between its two steps |
| CrostiniRuns.AnsweredWithAnother | build_files/cros/dbus-bridges/cmd/crostini-bridge/main.go:527-531 | of two overlapping requests the first reads the owner id of the second |
| CrostiniMessages.SuccessReads | build_files/cros/dbus-bridges/cmd/crostini-bridge/main.go:261-265 | success alone, and success with status 1 in field 4 for StartVm |
| CrostiniMessages.VmInfoReads | build_files/cros/dbus-bridges/cmd/crostini-bridge/main.go:213-218 | cid 4, type 1 and status 1 in fields 3, 6 and 8 |
| CrostiniMessages.GetVmInfoReads | build_files/cros/dbus-bridges/cmd/crostini-bridge/main.go:220-226 | the verdict, and the information on success only |
| CrostiniMessages.ListVmsReads | build_files/cros/dbus-bridges/cmd/crostini-bridge/main.go:228-238 | success and one running VM named termina of the given owner |
| CrostiniMessages.VmStartedReads | build_files/cros/dbus-bridges/cmd/crostini-bridge/main.go:267-273 | owner and VM name in the nested record, and status 1 |
| CrostiniMessages.ContainerStartedReads | build_files/cros/dbus-bridges/cmd/crostini-bridge/main.go:194-203 | VM, container, owner, user, home directory, address and token |
| DesktopFiles.ParseDesktop | build_files/cros/dbus-bridges/cmd/crostini-bridge/main.go:371-414 | the loop with its early return does what `DesktopFiles.Parse` says |
| DesktopFiles.ParseMeans | build_files/cros/dbus-bridges/cmd/crostini-bridge/main.go:378-413 | accepted exactly when not hidden, the last Type is Application and some Name is not empty; first such Name, last Exec |
| Sequences.TrimExactly | build_files/cros/dbus-bridges/cmd/crostini-bridge/main.go:379-396 | trimming takes all white space off both ends and nothing else |
| DesktopFiles.CutExactly | build_files/cros/dbus-bridges/cmd/crostini-bridge/main.go:390-393 | a line is cut at its first equals sign |
| DesktopFiles.TrueAre | build_files/cros/dbus-bridges/cmd/crostini-bridge/main.go:405-407 | exactly the sixteen spellings of true hide an app |
| DesktopFiles.SpacesAre | build_files/cros/dbus-bridges/cmd/crostini-bridge/main.go:379-396 | the white space characters by code point |
| DesktopFiles.ParsersAgree | build_files/cros/dbus-bridges/cmd/register-apps/main.go:43-88 | both parsers accept the same files and agree on id, name and command |
| DesktopFiles.ParseRegisteredMeans | build_files/cros/dbus-bridges/cmd/register-apps/main.go:43-88 | the same for register-apps, with the last StartupWMClass |
| DesktopFiles.WrittenAppParses | build_files/cros/dbus-bridges/cmd/register-apps/main.go:43-88 | an app written down as a desktop file is read back by both parsers |
| DesktopIndex.ScanApps | build_files/cros/dbus-bridges/cmd/crostini-bridge/main.go:416-445 | the nested loops with the `seen` map list what `DesktopIndex.Scan` says |
| DesktopIndex.FindApp | build_files/cros/dbus-bridges/cmd/crostini-bridge/main.go:447-454 | the first directory whose file parses |
| DesktopIndex.IndexAgreesWithLookup | build_files/cros/dbus-bridges/cmd/crostini-bridge/main.go:416-454 | ids are distinct, and an app is listed if and only if lookup of its id returns it |
| DesktopIndex.RegisteredAppsAreFound | build_files/cros/dbus-bridges/cmd/register-apps/main.go:90-113 | every app scanned by register-apps is found by the bridge with the same name and command |
| DesktopIndex.FoundAppsAreRegistered | build_files/cros/dbus-bridges/cmd/register-apps/main.go:90-113 | and every app in the bridge's index is scanned by register-apps |
| DesktopIndex.ListedInOrder | build_files/cros/dbus-bridges/cmd/crostini-bridge/main.go:416-445 | apps are listed in the order of the directories and of their entries |
| Registry.PrintId | build_files/cros/dbus-bridges/cmd/register-apps/main.go:118-123 | the nibble loop writes the 32 letters of the first 16 hash bytes |
| Registry.LettersInvert | build_files/cros/dbus-bridges/cmd/register-apps/main.go:118-123 | the letters decode back to the hash bytes |
| Registry.IdsCollideWithHashes | build_files/cros/dbus-bridges/cmd/register-apps/main.go:115-124 | ids are 32 letters a to p and collide if and only if the truncated hashes do |
| Registry.AppIdIs | build_files/cros/dbus-bridges/cmd/register-apps/main.go:115-124 | each byte of the hash of `crostini:termina/penguin/` and the id is two letters, the high half first |
| Registry.Merge | build_files/cros/dbus-bridges/cmd/register-apps/main.go:180-209 | the loops make of the preferences what `Registry.Update` says |
| Registry.MergeKeeps | build_files/cros/dbus-bridges/cmd/register-apps/main.go:187-209 | keys are the old object-valued ones and the ids of the apps, old entries are unchanged, a new id has the first app's entry |
| Registry.EntriesWritten | build_files/cros/dbus-bridges/cmd/register-apps/main.go:134-207 | read from the written file: old entries stay and a new one says all it should of its app |
| Registry.OtherMembersStay | build_files/cros/dbus-bridges/cmd/register-apps/main.go:180-209 | enabled is true, the registry holds objects only, other members are left alone |
| Registry.MergeIsFixpoint | build_files/cros/dbus-bridges/cmd/register-apps/main.go:180-209 | a second run with the same apps changes nothing |
| Network.PathsInjective | build_files/cros/dbus-bridges/cmd/shill-bridge/main.go:485 | decimal object paths name their index |
| Network.DecimalIs | build_files/cros/dbus-bridges/cmd/shill-bridge/main.go:485 | the index is written in decimal, digit by digit |
| Network.NumbersMean | build_files/cros/dbus-bridges/cmd/shill-bridge/main.go:26-48 | NetworkManager's state, activation and device type numbers by name |
| Network.ConnectionTypes | build_files/cros/dbus-bridges/cmd/shill-bridge/main.go:449-459 | a raw type holding wireless or wifi is wifi, two names are ethernet, others are skipped |
| Network.KeptInOrder | build_files/cros/dbus-bridges/cmd/shill-bridge/main.go:443-541 | devices of type 1 and 2 and connections of a known type are kept in order |
| Network.ViewSays | build_files/cros/dbus-bridges/cmd/shill-bridge/main.go:422-541 | every record of a view, field by field |
| Network.QueryNMDevices | build_files/cros/dbus-bridges/cmd/shill-bridge/main.go:501-541 | the loop builds one device per kept NetworkManager device, in order |
| Network.IndexPaths | build_files/cros/dbus-bridges/cmd/shill-bridge/main.go:432-435 | the map holds the last index of every path |
| Network.QueryServices | build_files/cros/dbus-bridges/cmd/shill-bridge/main.go:443-495 | the loop builds one service per kept connection, in order |
| Network.QueryNM | build_files/cros/dbus-bridges/cmd/shill-bridge/main.go:422-499 | the whole query, with its failure cases |
| Network.ReferenceIntegrity | build_files/cros/dbus-bridges/cmd/shill-bridge/main.go:431-541 | paths are dense and distinct; a service's device path is empty or that of the listed device built from its first NetworkManager device |
| Network.SyncServiceObjects | build_files/cros/dbus-bridges/cmd/shill-bridge/main.go:574-579 | every listed path exports the current record, other exports stay |
| Network.SyncDeviceObjects | build_files/cros/dbus-bridges/cmd/shill-bridge/main.go:581-586 | the same for devices |
| Poller.Manager.constructor | build_files/cros/dbus-bridges/cmd/shill-bridge/main.go:602-624 | the state before the loop, with nothing announced |
| Poller.Manager.Poll | build_files/cros/dbus-bridges/cmd/shill-bridge/main.go:625-659 | one tick: view, counters and signals, and all listed objects exported |
| Poller.TickAgrees | build_files/cros/dbus-bridges/cmd/shill-bridge/main.go:625-659 | after a successful tick the last announced state and lists are the current ones |
| Poller.OnlyNews | build_files/cros/dbus-bridges/cmd/shill-bridge/main.go:625-659 | a tick announces nothing an observer knows, at most one signal of a kind, in order |
| Poller.ObserverAgreement | build_files/cros/dbus-bridges/cmd/shill-bridge/main.go:621-659 | the same over every run of ticks, failed ones included |
| Tethering.ShillManager.FindWifi | build_files/cros/dbus-bridges/cmd/shill-bridge/main.go:169-184 | the first wifi device decides whether Enable goes on |
| Tethering.WifiExactly | build_files/cros/dbus-bridges/cmd/shill-bridge/main.go:174-180 | the name is that of the first device of type wifi, empty when there is none |
| Tethering.ShillManager.CommitEnable | build_files/cros/dbus-bridges/cmd/shill-bridge/main.go:186-197 | the fields become starting and one attempt is launched |
| Tethering.ShillManager.DisableTethering | build_files/cros/dbus-bridges/cmd/shill-bridge/main.go:200-204 | the fields become idle; attempts go on |
| Tethering.ShillManager.FinishHotspot | build_files/cros/dbus-bridges/cmd/shill-bridge/main.go:267-324 | a failed attempt clears both fields, a successful one sets only the state |
| Tethering.ShillManager.TetheringStatus | build_files/cros/dbus-bridges/cmd/shill-bridge/main.go:228-248 | the variant: the state, the reason "user_exit" exactly when idle, an empty list of clients exactly when active |
| Tethering.StatusExactly | build_files/cros/dbus-bridges/cmd/shill-bridge/main.go:169-324 | the reported status over every interleaving as a function of the history, and idle if and only if not active |
| Tethering.ReportExactly | build_files/cros/dbus-bridges/cmd/shill-bridge/main.go:169-324 | the whole variant over every interleaving is one of three, as a function of the history |
| Tethering.StartingMeansOutstanding | build_files/cros/dbus-bridges/cmd/shill-bridge/main.go:169-324 | "starting" means the attempt of the latest Enable is under way |
| Tethering.ActiveMeansSucceeded | build_files/cros/dbus-bridges/cmd/shill-bridge/main.go:267-324 | "active" means an attempt succeeded since the latest Enable |
| Tethering.IdleUntilEnable | build_files/cros/dbus-bridges/cmd/shill-bridge/main.go:200-324 | after a Disable the report is idle until the next Enable |
| Tethering.PendingCounts | build_files/cros/dbus-bridges/cmd/shill-bridge/main.go:169-198 | the calls between their two sections are those accepted and not committed; no client is ever counted |
| Tethering.LateFailureHidesSuccess | build_files/cros/dbus-bridges/cmd/shill-bridge/main.go:267-324 | a feasible run in which a late failure hides a newer success |
| Spring.Particle.constructor | system_files/custom/usr/share/plasma/plasmoids/com.weenie.googleballs/contents/ui/main.qml:129-151 | a new particle is at rest in its place |
| Spring.Particle.MoveInPlane | system_files/custom/usr/share/plasma/plasmoids/com.weenie.googleballs/contents/ui/main.qml:165-187 | position and velocity move by one step of the spring |
| Spring.Particle.MoveInDepth | system_files/custom/usr/share/plasma/plasmoids/com.weenie.googleballs/contents/ui/main.qml:189-202 | depth, velocity and radius follow the new distance |
| Spring.Particle.Update | system_files/custom/usr/share/plasma/plasmoids/com.weenie.googleballs/contents/ui/main.qml:163-203 | one particle moves by one step |
| Spring.UpdateParticles | system_files/custom/usr/share/plasma/plasmoids/com.weenie.googleballs/contents/ui/main.qml:159-204 | every particle moves by one step, each on its own |
| Spring.ActsExactly | system_files/custom/usr/share/plasma/plasmoids/com.weenie.googleballs/contents/ui/main.qml:165-169 | the mouse acts exactly when it counts and the square root of the squares is below the radius |
| Spring.StepInNumbers | system_files/custom/usr/share/plasma/plasmoids/com.weenie.googleballs/contents/ui/main.qml:169-187 | the new velocities in numbers, with and without the mouse |
| Spring.PushedAway | system_files/custom/usr/share/plasma/plasmoids/com.weenie.googleballs/contents/ui/main.qml:169-187 | a particle at rest under the mouse ends strictly farther from it, unless exactly there |
| Spring.DepthInNumbers | system_files/custom/usr/share/plasma/plasmoids/com.weenie.googleballs/contents/ui/main.qml:189-202 | the new depth, its velocity and the radius in numbers |
| Spring.StepDecays | system_files/custom/usr/share/plasma/plasmoids/com.weenie.googleballs/contents/ui/main.qml:177-187 | an undisturbed step multiplies 2d^2 - 3dv + 20v^2 by exactly 0.8 |
| Spring.EnergyBounds | system_files/custom/usr/share/plasma/plasmoids/com.weenie.googleballs/contents/ui/main.qml:177-187 | that form is positive definite and bounds displacement and velocity |
| Spring.EnergyAfter | system_files/custom/usr/share/plasma/plasmoids/com.weenie.googleballs/contents/ui/main.qml:159-204 | after n undisturbed frames it is exactly 0.8^n of what it was |
| Spring.Decay | system_files/custom/usr/share/plasma/plasmoids/com.weenie.googleballs/contents/ui/main.qml:159-204 | d^2 is at most (80/151) 0.8^n of the initial form on either axis |
| Spring.ComesToRest | system_files/custom/usr/share/plasma/plasmoids/com.weenie.googleballs/contents/ui/main.qml:159-204 | a particle left alone comes as near its place as one likes and stays there |
| Depth.PlaneOf | system_files/custom/usr/share/plasma/plasmoids/com.weenie.googleballs/contents/ui/main.qml:159-204 | in the plane a particle moves as if it had no depth |
| Depth.DrivenStep | system_files/custom/usr/share/plasma/plasmoids/com.weenie.googleballs/contents/ui/main.qml:189-199 | a step towards a target off by u leaves at most 0.9 of the form and 1.44 u^2 |
| Depth.TotalDecays | system_files/custom/usr/share/plasma/plasmoids/com.weenie.googleballs/contents/ui/main.qml:159-204 | an undisturbed frame takes at least a tenth of the form summed over depth and plane, although the plane drives the depth |
| Depth.TotalAfter | system_files/custom/usr/share/plasma/plasmoids/com.weenie.googleballs/contents/ui/main.qml:159-204 | after n undisturbed frames it is at most 0.9^n of what it was |
| Depth.DepthComesToRest | system_files/custom/usr/share/plasma/plasmoids/com.weenie.googleballs/contents/ui/main.qml:159-204 | depth and radius of a particle left alone come as near their places as one likes and stay there |

## Left out

- DesktopIndex.FindApp: only for ids without a slash, because `filepath.Join` would leave the directory; the snapshot is fixed while a scan runs.
- Tethering.ShillManager.FinishHotspot: the two reasons for failure are one event, and the order of D-Bus sends against status reads is not modelled.
- Spring.Particle.Update: over the reals instead of float64; the square root is any function that squares back.
- Terminal parameters are unbounded naturals; the code's numbers lose precision beyond 2^53.
- JavaScript orders integer-like object keys first; no style the terminal can reach has such a key.
- Crostini histories hold only requests that decode; one that does not ends its call in a panic.
- A Preferences file holding JSON `null` leaves register-apps without a map and makes it panic; the model always has a map.
- The DOM, keyboard input, byte decoding before `processText`, and `start` calling it.
- D-Bus connections, timers, signals other than the logged ones, `/sys`, xrandr and systemctl.
- SHA-256 is any function of the right length, JSON reading and writing an exact round trip, the install time any text.
- Desktop file contents are Unicode text; invalid UTF-8 in them is not modelled.
- `launchApp`, icon lookup, DLC and image loader answers, and the remaining constant responses of the Crostini bridge.
- The other bridges, plasmoids, and the build and session scripts.
