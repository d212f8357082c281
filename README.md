# QTerminal — a Dafny model of the terminal dialog

QTerminal (`kgl::QTerminal`) is a Qt dialog that behaves like a console. It has one text widget. Programs write to it in a
current text state (Normal, Error, Success, Warning), which selects a colour from a design (`kgl::QTerminalDesign`).
Programs also read typed input from it with a blocking read. An event filter guards each read, so that the
user cannot edit text that came before the read. Typed readers turn the raw line into a character, a string or a number:

- a numeric reader sets a status flag;
- a numeric reader writes a coloured diagnostic line when the input is not a number or is out of range;
- the hex reader strips the prefixes `$`, `&h` and `0x`.

A palette editor (`kgl::QFormatEditor`) works on a copy of the design. It edits one colour per button. The terminal
adopts the edited copy only when the editor is accepted.

The model has these modules:

- `TerminalEnums` holds the two enumerations.
- `TerminalDesign` is the design. It has `class Design` with its seven fields, getters and setters, and
  `DesignValue` as its value.
- `QtStrings` holds the QString services the terminal calls: digit parsing (`toUInt`, `toULongLong`), number
  rendering (`QString::number`), `remove` and `left`. They are specified concretely.
- `FormatEditor` is the palette editor, `class Editor`. The colour dialog is a parameter.
- `Terminal` is the terminal, `class Terminal`.
  - The text widget is a buffer of cells, each a character with the format it was inserted in, plus a caret.
  - The read state is `initialPos`, `caretPos`, `isReturnPressed`, `isReading` and `flag`.
  - The blocking read is split into `BeginRead`, key presses (`Press` is `Filter` followed by the widget step
    `KeyEffect`) and `FinishRead`.
  - The typed readers are the part of each `read*` after the wait. Their outcomes are the pure functions
    `NarrowOutcome` and `WideOutcome`.
- `Scenarios` holds whole sessions on fresh terminals: a prompt, keys typed, a read, a palette edit.

Where the code and its documentation differ, the model follows the code:

- The numeric readers set the flag to Success after the read finishes, not before it starts.
- A numeric read that succeeds writes nothing and leaves the current character format as it was. Only the Error and
  Warning paths end by setting the state back to Normal.
- `readByte` and `readUInt16` parse with `toUInt`, so a number of 2^32 or more is "not a number" (an Error), not a
  Warning.
- `readHex` removes `$`, `&h` and `0x` anywhere in the text, not only as a prefix.
- `readChar` is documented as blocking until one single character is typed. It waits for Return like the other readers and takes the first character of the line (Terminal.Terminal.ReadChar, Terminal.FirstChar).
- `readString` is documented as returning a string of the specified size. It returns the first `size` characters of the line, which is fewer when the line is shorter (Terminal.Terminal.ReadString, QtStrings.Left).

## Model

| member | source | states |
|---|---|---|
| TerminalDesign.WithColor | src/Design/QTerminalDesign.cpp:126-182 | setting one colour slot makes that slot read back the new colour and keeps the other five slots and the font |
| TerminalDesign.Design.constructor | src/Design/QTerminalDesign.cpp:36-46 | the default design: back 0xff333333, text 0xffdddddd, error 0xffff3000, success 0xff30ff00, warning 0xffff8000, highlight 0xff3030ff, a 10-point typewriter "Monospace" font |
| TerminalDesign.Design.Copy | include/KGL/Design/QTerminalDesign.hpp:58 | a copied design equals the original field by field |
| TerminalDesign.Design.Assign | src/Dialogs/QFormatEditor.cpp:94 | copy assignment makes the target's value equal to the source's |
| TerminalDesign.Design.BackColor | src/Design/QTerminalDesign.cpp:62-64 | returns the back slot and changes nothing |
| TerminalDesign.Design.TextColor | src/Design/QTerminalDesign.cpp:71-73 | returns the text slot and changes nothing |
| TerminalDesign.Design.CurrentFont | src/Design/QTerminalDesign.cpp:80-82 | returns the font and changes nothing |
| TerminalDesign.Design.ErrorColor | src/Design/QTerminalDesign.cpp:89-91 | returns the error slot and changes nothing |
| TerminalDesign.Design.SuccessColor | src/Design/QTerminalDesign.cpp:98-100 | returns the success slot and changes nothing |
| TerminalDesign.Design.WarningColor | src/Design/QTerminalDesign.cpp:107-109 | returns the warning slot and changes nothing |
| TerminalDesign.Design.HighlightColor | src/Design/QTerminalDesign.cpp:116-118 | returns the highlight slot and changes nothing |
| TerminalDesign.Design.SetBackColor | src/Design/QTerminalDesign.cpp:126-128 | only the back slot changes, and its getter then returns the new colour |
| TerminalDesign.Design.SetTextColor | src/Design/QTerminalDesign.cpp:135-137 | only the text slot changes, and its getter then returns the new colour |
| TerminalDesign.Design.SetFont | src/Design/QTerminalDesign.cpp:144-146 | only the font changes, and the getter then returns the new font |
| TerminalDesign.Design.SetErrorColor | src/Design/QTerminalDesign.cpp:153-155 | only the error slot changes, and its getter then returns the new colour |
| TerminalDesign.Design.SetSuccessColor | src/Design/QTerminalDesign.cpp:162-164 | only the success slot changes, and its getter then returns the new colour |
| TerminalDesign.Design.SetWarningColor | src/Design/QTerminalDesign.cpp:171-173 | only the warning slot changes, and its getter then returns the new colour |
| TerminalDesign.Design.SetHighlightColor | src/Design/QTerminalDesign.cpp:180-182 | only the highlight slot changes, and its getter then returns the new colour |
| QtStrings.DigitValue | src/Dialogs/QTerminal.cpp:495 | a character's digit value, when it has one, is below the base |
| QtStrings.DigitChar | src/Dialogs/QTerminal.cpp:588 | the digit character emitted for d is read back as d in every base above d, and it is '0' exactly when d is 0 |
| QtStrings.DigitsValue | src/Dialogs/QTerminal.cpp:335 | a digit string has a value exactly when every character is a digit of the base |
| QtStrings.ParseUnsigned | src/Dialogs/QTerminal.cpp:335 | a successful parse comes from a non-empty string of digits and is below the width limit |
| QtStrings.Render | src/Dialogs/QTerminal.cpp:588 | rendering gives a non-empty digit string with no leading zero |
| QtStrings.RenderDenotes | src/Dialogs/QTerminal.cpp:588 | the rendered digits denote the rendered number |
| QtStrings.RenderParses | src/Dialogs/QTerminal.cpp:588 | parsing a rendered number in the same base, under any larger limit, gives the number back |
| QtStrings.RemoveAll | src/Dialogs/QTerminal.cpp:491 | `QString::remove`: the non-overlapping occurrences of the pattern, found scanning left to right, are deleted; the result is never longer than the input |
| QtStrings.NoRescan | src/Dialogs/QTerminal.cpp:491 | an occurrence formed by a deletion is not rescanned: removing "0x" from "00xx" leaves "0x" |
| QtStrings.RemoveAllOnlyDeletes | src/Dialogs/QTerminal.cpp:491 | removal only deletes characters: the result is a sub-multiset of the input |
| QtStrings.RemoveCharLeavesNone | src/Dialogs/QTerminal.cpp:491 | removing a one-character string leaves none of that character |
| QtStrings.RemoveAllAbsent | src/Dialogs/QTerminal.cpp:491 | a string without the pattern's last character is left unchanged |
| QtStrings.Left | src/Dialogs/QTerminal.cpp:321 | `left(n)` is a prefix of length min(n, size) |
| FormatEditor.SenderRole | src/Dialogs/QFormatEditor.cpp:114-125 | a sender names a colour slot exactly when it is one of the six button names |
| FormatEditor.InitialColor | src/Dialogs/QFormatEditor.cpp:113-126 | the dialog opens on the current colour of the sender's slot, or on no colour for an unknown sender |
| FormatEditor.Edited | src/Dialogs/QFormatEditor.cpp:130-144 | a rejected dialog or an unknown sender leaves the design unchanged; otherwise exactly the sender's slot takes the chosen colour |
| FormatEditor.BackButtonEditsBack | src/Dialogs/QFormatEditor.cpp:131-132 | "btnBack" names the back slot, and an accepted colour from it replaces exactly the back colour |
| FormatEditor.TextButtonEditsText | src/Dialogs/QFormatEditor.cpp:133-134 | "btnText" names the text slot, and an accepted colour from it replaces exactly the text colour |
| FormatEditor.SuccButtonEditsSuccess | src/Dialogs/QFormatEditor.cpp:135-136 | "btnSucc" names the success slot, and an accepted colour from it replaces exactly the success colour |
| FormatEditor.ErroButtonEditsError | src/Dialogs/QFormatEditor.cpp:137-138 | "btnErro" names the error slot, and an accepted colour from it replaces exactly the error colour |
| FormatEditor.WarnButtonEditsWarning | src/Dialogs/QFormatEditor.cpp:139-140 | "btnWarn" names the warning slot, and an accepted colour from it replaces exactly the warning colour |
| FormatEditor.HighButtonEditsHighlight | src/Dialogs/QFormatEditor.cpp:141-142 | "btnHigh" names the highlight slot, and an accepted colour from it replaces exactly the highlight colour |
| FormatEditor.Editor.constructor | include/KGL/Dialogs/QFormatEditor.hpp:90 | a new editor holds a default design of its own |
| FormatEditor.Editor.SetDesign | src/Dialogs/QFormatEditor.cpp:93-95 | afterwards the editor's design equals the given one |
| FormatEditor.Editor.CurrentDesign | src/Dialogs/QFormatEditor.cpp:102-104 | returns the editor's own design, so it reads what SetDesign and OpenDialog left |
| FormatEditor.Editor.OpenDialog | src/Dialogs/QFormatEditor.cpp:112-145 | the name-dispatch chains have the effect of `Edited`, with the dialog opened on `InitialColor` |
| Terminal.InsertedTwice | src/Dialogs/QTerminal.cpp:526-527 | inserting x and then inserting y right after it is the same as inserting x + y |
| Terminal.StateRole | src/Dialogs/QTerminal.cpp:260-265 | a text state writes in one of the four text colours, never the back or highlight slot |
| Terminal.StateColours | src/Dialogs/QTerminal.cpp:260-265 | Normal writes in the text colour, Error in the error colour, Success in the success colour, Warning in the warning colour |
| Terminal.StateRolesDistinct | src/Dialogs/QTerminal.cpp:260-265 | distinct states write in distinct slots |
| Terminal.StateFormat | src/Dialogs/QTerminal.cpp:252-268 | the format has the design's font and the state's colour, and it has the highlight colour as background exactly when highlight is asked for |
| Terminal.EditedSlotRecoloursOneState | src/Dialogs/QTerminal.cpp:260-265 | editing one design slot changes the colour of exactly the state that writes in it |
| Terminal.KeyEffect | src/Dialogs/QTerminal.cpp:211 | the widget's handling of a forwarded key leaves the caret in the text and never changes the text before the edit point |
| Terminal.KeyAtEnd | src/Dialogs/QTerminal.cpp:199-211 | a key acting at the end of the text appends one character, removes the last one, or changes nothing |
| Terminal.SelectedSpan | src/Dialogs/QTerminal.cpp:175-178 | the read is the text from the read start up to, not including, the character before the caret; it is empty when the caret is just past the read start |
| Terminal.FirstChar | src/Dialogs/QTerminal.cpp:293-298 | the first character of a non-empty read, and None exactly for an empty one |
| Terminal.FirstCharAsWritten | src/Dialogs/QTerminal.cpp:297 | `s[0]` as Qt 5 reads it: the first character of a non-empty read, and NUL for an empty one |
| Terminal.EmptyReadLooksLikeNul | src/Dialogs/QTerminal.cpp:293-298 | as written, an empty read gives NUL, a character nobody pressed, just as a read holding one NUL would; `FirstChar` tells the two apart |
| Terminal.ToUInt | src/Dialogs/QTerminal.cpp:335 | a successful decimal parse is below 2^32 |
| Terminal.ToULongLong | src/Dialogs/QTerminal.cpp:397 | a successful parse in the given base is below 2^64 |
| Terminal.StripHexPrefixes | src/Dialogs/QTerminal.cpp:491 | the three removals in the code's order: every `$`, then every `&h` in either case, then every `0x`; the result is never longer than the input |
| Terminal.StripHexPrefixesLeavesNoDollar | src/Dialogs/QTerminal.cpp:491 | no `$` survives the three removals, and no character is added |
| Terminal.HexDigitsUntouched | src/Dialogs/QTerminal.cpp:491 | none of the three removals touches a string of hex digits |
| Terminal.DollarPrefixStripped | src/Dialogs/QTerminal.cpp:491 | `$` followed by hex digits strips to the digits |
| Terminal.AmpHPrefixStripped | src/Dialogs/QTerminal.cpp:491 | `&h` or `&H` followed by hex digits strips to the digits |
| Terminal.ZeroXPrefixStripped | src/Dialogs/QTerminal.cpp:491 | `0x` followed by hex digits strips to the digits |
| Terminal.HexPrefixStripped | include/KGL/Dialogs/QTerminal.hpp:173 | hex digits with any supported prefix, or none, strip to the digits |
| Terminal.ParseHex | src/Dialogs/QTerminal.cpp:491-495 | a successful hex parse fits in 64 bits |
| Terminal.HexReadsBack | src/Dialogs/QTerminal.cpp:491-495 | every 64-bit number written in hex, with any supported prefix, reads back as itself |
| Terminal.ZeroXExample | src/Dialogs/QTerminal.cpp:491-495 | "0xFF" reads as 255 |
| Terminal.DollarExample | src/Dialogs/QTerminal.cpp:491-495 | "$FF" reads as 255 |
| Terminal.AmpHExample | src/Dialogs/QTerminal.cpp:491-495 | "&hFF" reads as 255 |
| Terminal.InnerDollarExample | src/Dialogs/QTerminal.cpp:491 | a `$` in the middle is removed too: "F$F" reads as 255 |
| Terminal.EmptyHexFails | src/Dialogs/QTerminal.cpp:495-496 | an empty hex read fails |
| Terminal.NarrowOutcome | src/Dialogs/QTerminal.cpp:329-415 | an unparsable input is an Error worth 0 with the not-a-number line; a value above the mask is a Warning worth its low bits with the range line; anything else is a silent Success with the value unchanged |
| Terminal.InRangeIsSilent | src/Dialogs/QTerminal.cpp:344-352 | a value within the mask is returned unchanged, with Success and no diagnostic |
| Terminal.ByteExamples | src/Dialogs/QTerminal.cpp:329-353 | readByte on "256" warns and gives 0; on "xyz" it fails and gives 0 |
| Terminal.WideOutcome | src/Dialogs/QTerminal.cpp:422-437 | readUInt64 and readHex end in Success with the parsed value, or in Error worth 0 with the failure line; never in Warning |
| Terminal.FormatBaseAsWritten | src/Dialogs/QTerminal.cpp:579-585 | the base as written is a valid base exactly for the formats other than Binary |
| Terminal.FormatBase | src/Dialogs/QTerminal.cpp:579-585 | every format maps to a valid base: Binary to 2, the others as written |
| Terminal.WrittenNumberReadsBack | src/Dialogs/QTerminal.cpp:576-590 | every 64-bit number written in any format parses back, in that format's base, to itself |
| Terminal.Terminal.constructor | src/Dialogs/QTerminal.cpp:43-52 | a new terminal has an empty buffer, flag Success, both positions 0, and neither reading nor Return latched |
| Terminal.Terminal.Flag | src/Dialogs/QTerminal.cpp:243-245 | returns the status flag |
| Terminal.Terminal.SetCurrentState | src/Dialogs/QTerminal.cpp:252-268 | only the current format changes, to `StateFormat` of the design |
| Terminal.Terminal.Clear | src/Dialogs/QTerminal.cpp:284-286 | the buffer is empty and the caret 0; the format, the read session, the flag and the design are kept |
| Terminal.Terminal.WriteString | src/Dialogs/QTerminal.cpp:537-542 | the string is inserted at the caret in the current format, and the caret moves to the end |
| Terminal.Terminal.WriteChar | src/Dialogs/QTerminal.cpp:512-517 | the character is inserted at the caret in the current format, and the caret moves to the end |
| Terminal.Terminal.WriteLine | src/Dialogs/QTerminal.cpp:524-530 | the line and a line break are inserted at the caret, and the caret moves to the end |
| Terminal.Terminal.WriteUInt64 | src/Dialogs/QTerminal.cpp:576-590 | the number's digits in the format's base are written as by WriteString |
| Terminal.Terminal.WriteByte | src/Dialogs/QTerminal.cpp:549-551 | as WriteUInt64, for a byte |
| Terminal.Terminal.WriteUInt16 | src/Dialogs/QTerminal.cpp:558-560 | as WriteUInt64, for a 16-bit number |
| Terminal.Terminal.WriteUInt32 | src/Dialogs/QTerminal.cpp:567-569 | as WriteUInt64, for a 32-bit number |
| Terminal.Terminal.BeginRead | src/Dialogs/QTerminal.cpp:162-164 | the read start and the recorded caret are the caret, and reading is on |
| Terminal.Terminal.Filter | src/Dialogs/QTerminal.cpp:186-217 | a Backspace at or before the read start is consumed and changes nothing; another key during a read moves a caret found before the recorded position to the end, latches only Return, and records the caret; outside a read, or for another event, nothing changes |
| Terminal.Terminal.Deliver | src/Dialogs/QTerminal.cpp:211 | the widget applies `KeyEffect` to the buffer and caret |
| Terminal.Terminal.Press | src/Dialogs/QTerminal.cpp:186-217 | the filter and then the widget step; during a read the text before the read start never changes under the modelled keys (see Left out on selections); while the caret is at the end or before the recorded position, a forwarded key acts at the end and that condition still holds afterwards |
| Terminal.Terminal.PressAtEnd | src/Dialogs/QTerminal.cpp:199-204 | the filter as its comment intends: during a read every forwarded key acts at the end of the text, and the text before the read start never changes under the modelled keys |
| Terminal.Terminal.Click | src/Dialogs/QTerminal.cpp:188-189 | a non-key event passes the filter untouched, and the widget moves the caret |
| Terminal.Terminal.FinishRead | src/Dialogs/QTerminal.cpp:171-178 | reading ends, the latch is cleared, and the text from the read start to before the inserted line break is returned |
| Terminal.Terminal.ReadLine | src/Dialogs/QTerminal.cpp:305-310 | returns the raw read and leaves the flag alone |
| Terminal.Terminal.ReadString | src/Dialogs/QTerminal.cpp:317-322 | returns the prefix of the raw read of length min(size, length) and leaves the flag alone |
| Terminal.Terminal.ReadChar | src/Dialogs/QTerminal.cpp:293-298 | returns the first character of the raw read, None when it is empty, and leaves the flag alone |
| Terminal.Terminal.Report | src/Dialogs/QTerminal.cpp:337-340 | writes the diagnostic line in its state's colour, puts the state back to Normal, and sets the flag |
| Terminal.Terminal.ReadNarrow | src/Dialogs/QTerminal.cpp:335-352 | the value, flag, written line and final format are those of `NarrowOutcome` |
| Terminal.Terminal.ReadByte | src/Dialogs/QTerminal.cpp:329-353 | the outcome of a decimal 32-bit parse of the raw read, narrowed to mask 0xFF |
| Terminal.Terminal.ReadUInt16 | src/Dialogs/QTerminal.cpp:360-384 | the outcome of a decimal 32-bit parse of the raw read, narrowed to mask 0xFFFF |
| Terminal.Terminal.ReadUInt32 | src/Dialogs/QTerminal.cpp:391-415 | the outcome of a decimal 64-bit parse of the raw read, narrowed to mask 0xFFFFFFFF |
| Terminal.Terminal.ReadWide | src/Dialogs/QTerminal.cpp:428-436 | the value, flag, written line and final format are those of `WideOutcome` |
| Terminal.Terminal.ReadUInt64 | src/Dialogs/QTerminal.cpp:422-437 | the outcome of a decimal 64-bit parse of the raw read, Success or Error |
| Terminal.Terminal.ReadHex | src/Dialogs/QTerminal.cpp:488-504 | the outcome of a base-16 parse of the raw read after prefix removal, Success or Error |
| Terminal.Terminal.OpenPaletteEditor | src/Dialogs/QTerminal.cpp:128-129 | a new editor holding a separate copy of the terminal's design |
| Terminal.Terminal.ClosePaletteEditor | src/Dialogs/QTerminal.cpp:130-133 | the editor's design replaces the terminal's when the dialog is accepted; otherwise the design is unchanged |
| Scenarios.TypeText | src/Dialogs/QTerminal.cpp:161-217 | after a prompt and a begun read, typing a text leaves the prompt and the text in the buffer, the caret at the end, and the recorded caret one key behind |
| Scenarios.TypeLine | src/Dialogs/QTerminal.cpp:161-217 | typing a text and then Return latches the read, and the pending read is exactly the typed text |
| Scenarios.ReadLineReturnsTypedText | src/Dialogs/QTerminal.cpp:161-217 | after a prompt, typing a text and then Return makes readLine return exactly that text, and the buffer holds the prompt, the text and a line break |
| Scenarios.ImmediateReturnReadsEmpty | src/Dialogs/QTerminal.cpp:293-298 | Return pressed at once gives an empty read; readChar as written then returns NUL, and the total version None |
| Scenarios.BackspaceAtReadStart | src/Dialogs/QTerminal.cpp:194-197 | Backspace at the start of a read is swallowed and the prompt is kept |
| Scenarios.ArrowThenTypeAppends | src/Dialogs/QTerminal.cpp:199-204 | after the caret is moved back, the next key still appends at the end |
| Scenarios.KeysOnlyEditAtEnd | src/Dialogs/QTerminal.cpp:199-212 | a read driven by key presses alone changes the text only at its end, one character at a time, and never touches the prompt (the modelled keys have no selection, undo or paste) |
| Scenarios.ClickThenTypeInsertsInside | src/Dialogs/QTerminal.cpp:199-212 | after "abc" is typed and the user clicks before the 'c', the next key goes in before the 'c', and the read returns "abx" |
| Scenarios.ClickThenTypeAppendsAtEnd | src/Dialogs/QTerminal.cpp:199-204 | with the intended filter the same session appends the 'x', and the read returns "abcx" |
| Scenarios.ByteOverflow | src/Dialogs/QTerminal.cpp:329-353 | readByte on "256" returns 0 with Warning, and the range line follows the input |
| Scenarios.StateChangeIsNotRetroactive | src/Dialogs/QTerminal.cpp:252-268 | text written in the Error state keeps the error colour after the state goes back to Normal |
| Scenarios.PaletteEdit | src/Dialogs/QTerminal.cpp:127-134 | an accepted palette edit of the error colour changes that slot alone; a rejected one changes nothing |

## Left out

- The `processEvents` busy-wait of the blocking read is not modelled: the read is `BeginRead`, then any key presses and clicks, then the finishing half of a reader, which requires Return to have been latched (the loop's exit condition).
- The text widget's own key handling is foreign. `KeyEffect` is a stated abstraction of it: a character key, Return and Enter insert one character; Backspace deletes; the arrows move by one. The widget's other keys, selections, undo and paste are left out. The guarantee that the text before the read start never changes (Terminal.Terminal.Press, Terminal.Terminal.PressAtEnd, Scenarios.KeysOnlyEditAtEnd) holds for these modelled keys only: the filter (src/Dialogs/QTerminal.cpp:194-204) tests the caret position and never the selection anchor, and the text edit is editable with default interaction flags. So during a read, a selection dragged from inside the prompt to the end, followed by 'x' or Backspace, passes the filter (the caret is at the end, neither before `m_CaretPos` nor at or before `m_InitialPos`) and the widget deletes the selected prompt text; Ctrl+Z can likewise undo the prompt's insertion.
- Terminal.KeyEffect / Terminal.Terminal.Press: typed text always takes the format last set by `setCurrentState`, and so does text from Terminal.Terminal.WriteString, Terminal.Terminal.WriteChar and Terminal.Terminal.WriteLine. `setCurrentCharFormat` only sets the cursor's current format, which Qt drops whenever the cursor moves: after an arrow key, a click (Terminal.Terminal.Click), the filter's move to the end, or a write at a moved caret. New text then takes the format of the character before the caret. For example, after "E" is written in the Error state and the state is set back to Normal, ArrowLeft and then 'x' paint the 'x' in the Error format in the code, and in the Normal format in the model.
- `KeyEffect`'s `Character(c)` accepts any character, including control characters such as NUL that the widget would not insert from a key press.
- Text is `seq<char>`, counted in Unicode scalar values, where `QString` counts UTF-16 code units. A character outside the Basic Multilingual Plane counts as one in the model and as two units in the code. So QtStrings.Left, Terminal.FirstCharAsWritten, Terminal.Terminal.ReadChar, Terminal.Terminal.ReadString and every caret position differ on such text: `left(1)` and `s[0]` of "\U{1F600}a" give a lone high surrogate in the code and the whole emoji in the model.
- `selectedText` encodes a line break inside the selection as U+2029. The buffer holds every line break as '\n', so a read containing a line break (typed with Enter) carries '\n' where the code yields U+2029.
- `toUInt` and `toULongLong` are modelled on plain digit strings only. Qt's parser also tolerates surrounding whitespace and a leading '+', and in base 16 `toULongLong` also skips a leading `0x` or `0X`; the model rejects all of these.
- Terminal.ParseHex: rejects "0XFF", which the code reads as 255 with Success. `remove("0x")` is case-sensitive and leaves the `0X`, and Qt's base-16 parse then skips it; the model's parse does not. The same holds for Terminal.Terminal.ReadHex.
- Case-insensitive matching in `remove("&h", Qt::CaseInsensitive)` is modelled by ASCII case folding, which is all the pattern needs.
- `writeLine` inserts its line break without naming a format, so the break takes the cursor's format, which is the format the line was just written in. The model writes the break in the current format.
- `readFloat`, `readDouble`, `writeFloat` and `writeDouble` are left out because they are floating point.
- `updateDesign`, `menuStyleSheet`, `showFontEditor`, `menuAt` and `exitTerminal` are left out. They are styling, menus and window management (palettes, style sheets, `QColor::darker`), not behaviour of the buffer or the read.
- Layout, `QUiLoader`, the `QSignalMapper` wiring of the editor's buttons, the destructors, and the demo driver `main.cpp` are left out as GUI plumbing. The button names are taken as the sender strings they produce.
- Fonts are opaque apart from their family, point size and typewriter hint. Colours are ARGB words (`bv32`).
- The `default:` branch of the base switch in `writeUInt64` is not modelled. A Dafny `NumberFormat` has only its four values, so that branch is unreachable.
- `readString` takes a `quint32` size, and `QString::left` takes an `int`. Sizes above 2^31 - 1, which wrap to negative and return the whole string, are not distinguished from large sizes. The result is the same: the whole read.
- Terminal.Terminal.ReadChar: returns None on an empty read, where the code as written returns NUL, a character that was not pressed (see Findings).
- Terminal.Terminal.WriteUInt64: uses base 2 for Binary where the code passes base 1 (see Findings).
- The terminal's `m_Design` becomes a `Design` object that the terminal owns. The palette editor's copy is a separate object.

## Findings

| source | as written | input that shows it | evidently intended | confidence | as-written member | corrected member |
|---|---|---|---|---|---|---|
| src/Dialogs/QTerminal.cpp:580 | `NumberFormat::Binary` selects base 1 for `QString::number`, which accepts bases 2 to 36 only; in Qt 5 its digit loop divides by 1, so the value never shrinks and the loop keeps writing digits below the start of its 65-entry stack buffer: a stack overrun (for 0 it still writes "0") | `writeUInt64(5, NumberFormat::Binary)` | base 2, so that 5 is written "101" | high; not executed | Terminal.FormatBaseAsWritten | Terminal.FormatBase, Terminal.WrittenNumberReadsBack |
| src/Dialogs/QTerminal.cpp:297 | `readChar` returns `s[0]` of the raw read; for an empty read Qt 5 yields NUL, although the header (include/KGL/Dialogs/QTerminal.hpp:108-109) promises the pressed character | start `readChar` and press Return with nothing typed: NUL, a character nobody pressed | a result that tells an empty read apart, such as no character | high; not executed | Terminal.FirstCharAsWritten, Terminal.EmptyReadLooksLikeNul, Scenarios.ImmediateReturnReadsEmpty | Terminal.FirstChar, Terminal.Terminal.ReadChar |
| src/Dialogs/QTerminal.cpp:199-212 | the caret is moved to the end only when it is before `m_CaretPos`, which is recorded before the widget handles the key and so lags one key behind; a click just before the last typed character passes the guard | `readLine`, type "abc", click between 'b' and 'c', type 'x', press Return: the buffer is "abx\nc" and the read returns "abx" | edits only at the end (the comment at line 199), so the read is "abcx" | medium; not executed | Terminal.Terminal.Press, Scenarios.ClickThenTypeInsertsInside, and Scenarios.KeysOnlyEditAtEnd for the sessions where the lag is harmless (key presses only) | Terminal.Terminal.PressAtEnd, Scenarios.ClickThenTypeAppendsAtEnd |
