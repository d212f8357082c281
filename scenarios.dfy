/**
 * Whole sessions on a fresh terminal, as a caller and a user drive it:
 * each states what the caller observes at the end.
 */
module Scenarios {
  import opened Wrappers
  import opened TerminalEnums
  import opened TerminalDesign
  import opened Terminal

  /** A fresh terminal after a prompt is written, a read begun and `typed` typed. */
  method TypeText(prompt: string, typed: string) returns (t: Terminal)
    ensures fresh(t) && t.design.Value() == DefaultValue && t.format == DefaultFormat
    ensures t.Valid() && t.isReading && !t.isReturnPressed && t.Guarded()
    ensures t.initialPos == |prompt| && t.caret == |t.buffer|
    ensures t.caretPos == if typed == [] then |prompt| else |prompt| + |typed| - 1
    ensures t.Text() == prompt + typed
  {
    t := new Terminal();
    t.WriteString(prompt);
    t.BeginRead();
    var i := 0;
    while i < |typed|
      invariant 0 <= i <= |typed|
      invariant t.Valid() && t.isReading && !t.isReturnPressed && t.Guarded()
      invariant t.initialPos == |prompt| && t.caret == |prompt| + i == |t.buffer|
      invariant t.caretPos == if i == 0 then |prompt| else |prompt| + i - 1
      invariant t.Text() == prompt + typed[..i]
      invariant t.format == DefaultFormat && t.design.Value() == DefaultValue
    {
      ghost var before := t.buffer;
      var k := t.Press(Character(typed[i]));
      CharsAppend(before, [Cell(typed[i], t.format)]);
      assert typed[..i + 1] == typed[..i] + [typed[i]];
      i := i + 1;
    }
    assert typed[..i] == typed;
  }

  /** A fresh terminal after a prompt is written, a read begun, `typed` typed and Return pressed. */
  method TypeLine(prompt: string, typed: string) returns (t: Terminal)
    ensures fresh(t) && t.design.Value() == DefaultValue && t.format == DefaultFormat
    ensures t.Valid() && t.isReading && t.isReturnPressed
    ensures t.initialPos == |prompt| && t.caret == |t.buffer|
    ensures t.Text() == prompt + typed + "\n"
    ensures t.RawText() == typed
  {
    t := TypeText(prompt, typed);
    ghost var before := t.buffer;
    var k := t.Press(Return);
    CharsAppend(before, [Cell('\n', t.format)]);
    assert t.Text() == prompt + typed + "\n";
    assert (prompt + typed + "\n")[|prompt|..|prompt| + |typed|] == typed;
  }

  /** The user types `typed` after a prompt and presses Return: the read returns exactly what was typed. */
  method ReadLineReturnsTypedText(prompt: string, typed: string) returns (raw: string, text: string)
    ensures raw == typed
    ensures text == prompt + typed + "\n"
  {
    var t := TypeLine(prompt, typed);
    text := t.Text();
    raw := t.ReadLine();
  }

  /**
   * Return pressed at once: the read is empty. readChar as written then returns
   * NUL, a character nobody pressed; the total version yields None.
   */
  method ImmediateReturnReadsEmpty(prompt: string) returns (raw: string, asWritten: char, c: Option<char>)
    ensures raw == [] && asWritten == '\0' && c == None
  {
    var t := new Terminal();
    t.WriteString(prompt);
    t.BeginRead();
    var k := t.Press(Return);
    raw := t.RawText();
    asWritten := FirstCharAsWritten(raw);
    c := t.ReadChar();
  }

  /** Backspace at the read start is swallowed: the prompt stays as it was. */
  method BackspaceAtReadStart(prompt: string) returns (consumed: bool, text: string)
    ensures consumed && text == prompt
  {
    var t := new Terminal();
    t.WriteString(prompt);
    t.BeginRead();
    consumed := t.Press(Backspace);
    text := t.Text();
  }

  /**
   * After "ab" is written, the user types 'x', steps left and types 'y': the
   * filter moves the caret back to the end, so 'y' is appended and the read is "xy".
   */
  method ArrowThenTypeAppends() returns (raw: string, text: string)
    ensures raw == "xy" && text == "abxy\n"
  {
    var t := TypeText("ab", "x");
    var k := t.Press(ArrowLeft);
    assert t.caret == 2 && t.caretPos == 3;
    k := t.Press(Character('y'));
    k := t.Press(Return);
    text := t.Text();
    assert text == "abxy\n";
    raw := t.ReadLine();
  }

  /**
   * A read driven by key presses alone, after a prompt, changes the text only at its
   * end: each key appends one character, removes the last one, or changes nothing,
   * and the prompt is never touched.
   */
  method KeysOnlyEditAtEnd(prompt: string, keys: seq<Key>) returns (texts: seq<string>)
    ensures |texts| == |keys| + 1 && texts[0] == prompt
    ensures forall j :: 0 <= j < |keys| ==> EditedAtEnd(texts[j], texts[j + 1])
    ensures forall j :: 0 <= j < |texts| ==> prompt <= texts[j]
  {
    var t := TypeText(prompt, "");
    ghost var start := t.buffer[..|prompt|];
    CharsPrefix(t.buffer, |prompt|);
    texts := [t.Text()];
    var i := 0;
    while i < |keys|
      invariant 0 <= i <= |keys|
      invariant t.Valid() && t.isReading && t.Guarded() && t.KeysGoToEnd()
      invariant t.initialPos == |prompt| && t.buffer[..|prompt|] == start && Chars(start) == prompt
      invariant |texts| == i + 1 && texts[0] == prompt && texts[i] == t.Text()
      invariant forall j :: 0 <= j < i ==> EditedAtEnd(texts[j], texts[j + 1])
      invariant forall j :: 0 <= j <= i ==> prompt <= texts[j]
    {
      ghost var before := t.buffer;
      var k := t.Press(keys[i]);
      KeyAtEnd(before, keys[i], t.format);
      CharsPrefix(t.buffer, |prompt|);
      texts := texts + [t.Text()];
      i := i + 1;
    }
  }

  /**
   * The user types "abc", clicks just before the 'c' and types 'x'. The recorded
   * caret lags one key behind, so the filter does not move the caret, the 'x' goes in
   * before the 'c', and after Return the read stops at the 'x': the 'c' is lost.
   */
  method ClickThenTypeInsertsInside() returns (raw: string, text: string)
    ensures text == "abx\nc" && raw == "abx"
  {
    var t := TypeText("", "abc");
    assert t.caret == 3 && t.caretPos == 2;
    t.Click(2);
    var k := t.Press(Character('x'));
    k := t.Press(Return);
    text := t.Text();
    assert text == "abx\nc";
    raw := t.ReadLine();
    assert raw == text[0..3];
  }

  /**
   * The same session with the filter guarding against the end (typing "abc" appends
   * under either filter): the 'x' is appended and the read is "abcx".
   */
  method ClickThenTypeAppendsAtEnd() returns (raw: string, text: string)
    ensures text == "abcx\n" && raw == "abcx"
  {
    var t := TypeText("", "abc");
    t.Click(2);
    var k := t.PressAtEnd(Character('x'));
    k := t.PressAtEnd(Return);
    text := t.Text();
    assert text == "abcx\n";
    raw := t.ReadLine();
    assert raw == text[0..4];
  }

  /** readByte on "256": a Warning, the value 0, and the range line written after the input. */
  method ByteOverflow() returns (v: nat, status: TextState, text: string)
    ensures v == 0 && status == Warning
    ensures text == "256\n" + ByteRange + "\n"
  {
    var t := TypeLine("", "256");
    ByteExamples();
    ghost var before := t.buffer;
    ghost var fmt := StateFormat(t.design.Value(), Warning, false);
    v := t.ReadByte();
    status := t.Flag();
    text := t.Text();
    CharsAppend(before, Paint(ByteRange + "\n", fmt));
    CharsOfPaint(ByteRange + "\n", fmt);
  }

  /**
   * Text written in the Error state keeps the error colour after the state goes
   * back to Normal; text written afterwards is in the text colour.
   */
  method StateChangeIsNotRetroactive(message: string, rest: string) returns (cells: seq<Cell>)
    ensures |cells| == |message| + |rest|
    ensures forall i :: 0 <= i < |message| ==> cells[i].format.CharFormat? && cells[i].format.foreground == DefaultValue.error
    ensures forall i :: |message| <= i < |cells| ==> cells[i].format.CharFormat? && cells[i].format.foreground == DefaultValue.text
  {
    var t := new Terminal();
    t.SetCurrentState(Error, false);
    t.WriteString(message);
    t.SetCurrentState(Normal, false);
    t.WriteString(rest);
    cells := t.buffer;
  }

  /**
   * The error colour edited in the palette editor: the terminal's design changes in
   * that slot alone when the editor is accepted, and not at all when it is rejected.
   */
  method PaletteEdit(c: Color, accept: bool) returns (before: DesignValue, after: DesignValue)
    ensures before == DefaultValue
    ensures after == if accept then before.(error := c) else before
  {
    var t := new Terminal();
    before := t.design.Value();
    var editor := t.OpenPaletteEditor();
    FormatEditor.ErroButtonEditsError(before, c);
    editor.OpenDialog("btnErro", (initial: Option<Color>) => Some(c));
    t.ClosePaletteEditor(editor, if accept then Accepted else Rejected);
    after := t.design.Value();
  }
}
