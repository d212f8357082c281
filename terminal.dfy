/**
 * The terminal dialog: a text buffer with a caret, written to in the current
 * character format, and read from through a blocking read session whose key
 * filter keeps the text before the read start untouched.
 */
module Terminal {
  import opened Wrappers
  import opened TerminalEnums
  import opened TerminalDesign
  import opened QtStrings
  import FormatEditor

  /** A character format: the text widget's default one, or one built by SetCurrentState. */
  datatype CharFormat = DefaultFormat | CharFormat(font: Font, foreground: Color, background: Option<Color>)

  /** One character of the buffer with the format it was inserted with. */
  datatype Cell = Cell(ch: char, format: CharFormat)

  /** The keys the model distinguishes; Enter is the keypad key, Return the main one. */
  datatype Key = Character(c: char) | Backspace | Return | Enter | ArrowLeft | ArrowRight

  /** An event reaching the text widget's filter. */
  datatype Event = KeyPress(key: Key) | OtherEvent

  datatype DialogCode = Accepted | Rejected

  const NotANumber: string := "Entered text is not a number."
  const NotAHexNumber: string := "Entered text is not a hex number."
  const ByteRange: string := "Entered number exceeds byte range."
  const ShortRange: string := "Entered number exceeds short range."
  const IntegerRange: string := "Entered number exceeds integer range."

  // ----- Buffer helpers -----

  function Chars(cells: seq<Cell>): (s: seq<char>)
    ensures |s| == |cells| && forall i :: 0 <= i < |cells| ==> s[i] == cells[i].ch
  {
    seq(|cells|, i requires 0 <= i < |cells| => cells[i].ch)
  }

  /** The characters of `s`, each in format `f`. */
  function Paint(s: seq<char>, f: CharFormat): (cells: seq<Cell>)
    ensures |cells| == |s| && forall i :: 0 <= i < |s| ==> cells[i] == Cell(s[i], f)
  {
    seq(|s|, i requires 0 <= i < |s| => Cell(s[i], f))
  }

  /** `cells` inserted into `text` at position `at`. */
  function Inserted(text: seq<Cell>, at: nat, cells: seq<Cell>): (r: seq<Cell>)
    requires at <= |text|
    ensures |r| == |text| + |cells|
  {
    text[..at] + cells + text[at..]
  }

  lemma CharsOfPaint(s: seq<char>, f: CharFormat)
    ensures Chars(Paint(s, f)) == s
  {
  }

  lemma CharsAppend(a: seq<Cell>, b: seq<Cell>)
    ensures Chars(a + b) == Chars(a) + Chars(b)
  {
    assert forall i :: 0 <= i < |a + b| ==> Chars(a + b)[i] == (Chars(a) + Chars(b))[i];
  }

  lemma CharsPrefix(text: seq<Cell>, n: nat)
    requires n <= |text|
    ensures Chars(text[..n]) == Chars(text)[..n]
  {
    assert text == text[..n] + text[n..];
    CharsAppend(text[..n], text[n..]);
  }

  lemma PaintAppend(a: seq<char>, b: seq<char>, f: CharFormat)
    ensures Paint(a + b, f) == Paint(a, f) + Paint(b, f)
  {
    assert forall i :: 0 <= i < |a + b| ==> Paint(a + b, f)[i] == (Paint(a, f) + Paint(b, f))[i];
  }

  /** Inserting `x` and then `y` right after it is inserting `x + y`. */
  lemma InsertedTwice(text: seq<Cell>, at: nat, x: seq<Cell>, y: seq<Cell>)
    requires at <= |text|
    ensures Inserted(Inserted(text, at, x), at + |x|, y) == Inserted(text, at, x + y)
  {
    var t := Inserted(text, at, x);
    assert t[..at + |x|] == text[..at] + x;
    assert t[at + |x|..] == text[at..];
  }

  // ----- Formats -----

  /** The design slot whose colour a text state writes in. */
  function StateRole(state: TextState): (role: ColorRole)
    ensures role != BackRole && role != HighlightRole
  {
    match state
    case Normal => TextRole
    case Error => ErrorRole
    case Success => SuccessRole
    case Warning => WarningRole
  }

  /** Normal writes in the text colour, Error, Success and Warning in their own. */
  lemma StateColours(d: DesignValue)
    ensures StateFormat(d, Normal, false).foreground == d.text
    ensures StateFormat(d, Error, false).foreground == d.error
    ensures StateFormat(d, Success, false).foreground == d.success
    ensures StateFormat(d, Warning, false).foreground == d.warning
  {
  }

  /** Distinct states write in distinct design slots. */
  lemma StateRolesDistinct(s1: TextState, s2: TextState)
    ensures StateRole(s1) == StateRole(s2) ==> s1 == s2
  {
  }

  /**
   * The format SetCurrentState builds: the design's font, the state's colour in
   * the foreground, and the highlight colour as background when asked for.
   */
  function StateFormat(d: DesignValue, state: TextState, highlight: bool): (f: CharFormat)
    ensures f.CharFormat? && f.font == d.font
    ensures f.foreground == ColorOf(d, StateRole(state))
    ensures f.background.Some? <==> highlight
    ensures highlight ==> f.background.value == d.highlight
  {
    CharFormat(d.font, ColorOf(d, StateRole(state)), if highlight then Some(d.highlight) else None)
  }

  /** Editing one slot of the design changes the colour of exactly the state that writes in that slot. */
  lemma EditedSlotRecoloursOneState(d: DesignValue, role: ColorRole, c: Color, state: TextState)
    ensures StateFormat(WithColor(d, role, c), state, false).foreground ==
      if StateRole(state) == role then c else StateFormat(d, state, false).foreground
  {
  }

  // ----- The widget's own key handling -----

  /** A text and a caret. */
  datatype Edit = Edit(text: seq<Cell>, caret: nat)

  /** Where a key acts: Backspace on the character before the caret, any other key at the caret. */
  function EditPoint(caret: nat, key: Key): nat
  {
    if key == Backspace && caret > 0 then caret - 1 else caret
  }

  /**
   * What the text widget does with a key the filter lets through (host-widget
   * behaviour, stated abstractly): a character key, Return and Enter insert one
   * character at the caret in the current format and step over it; Backspace
   * deletes the character before the caret; ArrowLeft and ArrowRight move the caret by one.
   * Nothing before the edit point changes.
   */
  function KeyEffect(text: seq<Cell>, caret: nat, key: Key, fmt: CharFormat): (e: Edit)
    requires caret <= |text|
    ensures e.caret <= |e.text|
    ensures EditPoint(caret, key) <= |e.text|
    ensures e.text[..EditPoint(caret, key)] == text[..EditPoint(caret, key)]
  {
    match key
    case Character(c) => Edit(Inserted(text, caret, [Cell(c, fmt)]), caret + 1)
    case Return => Edit(Inserted(text, caret, [Cell('\n', fmt)]), caret + 1)
    case Enter => Edit(Inserted(text, caret, [Cell('\n', fmt)]), caret + 1)
    case Backspace =>
      if caret == 0 then Edit(text, caret) else Edit(text[..caret - 1] + text[caret..], caret - 1)
    case ArrowLeft => Edit(text, if caret == 0 then 0 else caret - 1)
    case ArrowRight => Edit(text, if caret < |text| then caret + 1 else caret)
  }

  /** `after` is `before`, or `before` with one character added at its end, or without its last character. */
  predicate EditedAtEnd(before: seq<char>, after: seq<char>)
  {
    || after == before
    || (|after| == |before| + 1 && before <= after)
    || (before != [] && after == before[..|before| - 1])
  }

  /** A key acting at the end of the text changes the text only at its end. */
  lemma KeyAtEnd(text: seq<Cell>, key: Key, fmt: CharFormat)
    ensures EditedAtEnd(Chars(text), Chars(KeyEffect(text, |text|, key, fmt).text))
  {
    var after := KeyEffect(text, |text|, key, fmt).text;
    assert text[..|text|] == text && text[|text|..] == [];
    match key
    case Character(c) =>
      CharsAppend(text, [Cell(c, fmt)]);
    case Return =>
      CharsAppend(text, [Cell('\n', fmt)]);
    case Enter =>
      CharsAppend(text, [Cell('\n', fmt)]);
    case Backspace =>
      if text != [] {
        assert after == text[..|text| - 1];
        assert Chars(after) == Chars(text)[..|text| - 1];
      }
    case ArrowLeft =>
    case ArrowRight =>
  }

  // ----- Reading -----

  /**
   * The text the read returns: a cursor is put one before the caret and then
   * extended to the read start (QTextCursor::setPosition ignores a position
   * outside the text). When the read start lies before the caret this is the
   * text from the read start up to, not including, the character before the caret.
   */
  function SelectedSpan(text: seq<char>, caret: nat, start: nat): (r: seq<char>)
    requires caret <= |text|
    ensures start < caret ==> r == text[start..caret - 1]
    ensures start + 1 == caret ==> r == []
    ensures |r| <= |text|
  {
    var anchor := if caret >= 1 then caret - 1 else caret;
    var position := if start <= |text| then start else anchor;
    if anchor <= position then text[anchor..position] else text[position..anchor]
  }

  /** readChar's `s[0]` made total: the first character, or None for an empty read. */
  function FirstChar(s: seq<char>): (c: Option<char>)
    ensures c.None? <==> s == []
    ensures c.Some? ==> c.value == s[0]
  {
    if s == [] then None else Some(s[0])
  }

  /**
   * readChar as written: `s[0]`. On an empty string the Qt 5 character reference
   * reads past the end as QChar(0), so an empty read gives NUL.
   */
  function FirstCharAsWritten(s: seq<char>): (c: char)
    ensures s != [] ==> c == s[0]
    ensures s == [] ==> c == '\0'
  {
    if s == [] then '\0' else s[0]
  }

  /**
   * As written, an empty read gives NUL, a character nobody pressed: the same result
   * as a read holding one NUL. FirstChar tells the two apart.
   */
  lemma EmptyReadLooksLikeNul()
    ensures FirstCharAsWritten([]) == FirstCharAsWritten(['\0'])
    ensures FirstChar([]) != FirstChar(['\0'])
  {
  }

  /** QString::toUInt (base 10). */
  function ToUInt(s: seq<char>): (r: Option<nat>)
    ensures r.Some? ==> r.value < UInt32Limit
  {
    ParseUnsigned(s, 10, UInt32Limit)
  }

  /** QString::toULongLong in the given base. */
  function ToULongLong(s: seq<char>, radix: nat): (r: Option<nat>)
    requires ValidRadix(radix)
    ensures r.Some? ==> r.value < UInt64Limit
  {
    ParseUnsigned(s, radix, UInt64Limit)
  }

  /**
   * The prefix removal of readHex: every "$", every "&h" in either case and every
   * "0x" is removed, wherever it occurs.
   */
  function StripHexPrefixes(s: seq<char>): (r: seq<char>)
    ensures |r| <= |s|
  {
    RemoveAll(RemoveAll(RemoveAll(s, "$", false), "&h", true), "0x", false)
  }

  /** No `$` survives the removals, and no character is added. */
  lemma StripHexPrefixesLeavesNoDollar(s: seq<char>)
    ensures '$' !in StripHexPrefixes(s)
    ensures multiset(StripHexPrefixes(s)) <= multiset(s)
  {
    var noDollar := RemoveAll(s, "$", false);
    var noAmpH := RemoveAll(noDollar, "&h", true);
    RemoveCharLeavesNone(s, '$');
    RemoveAllOnlyDeletes(s, "$", false);
    RemoveAllOnlyDeletes(noDollar, "&h", true);
    RemoveAllOnlyDeletes(noAmpH, "0x", false);
    assert multiset(noDollar)['$'] == 0;
  }

  /** Every character of `s` is a hex digit, in either case. */
  ghost predicate HexDigits(s: seq<char>)
  {
    forall i :: 0 <= i < |s| ==> DigitValue(s[i], 16).Some?
  }

  /** Hex digits are left alone by each of the three removals. */
  lemma HexDigitsUntouched(digits: seq<char>)
    requires HexDigits(digits)
    ensures RemoveAll(digits, "$", false) == digits
    ensures RemoveAll(digits, "&h", true) == digits
    ensures RemoveAll(digits, "0x", false) == digits
  {
    assert forall i :: 0 <= i < |digits| ==> digits[i] != '$' && digits[i] != 'x' && FoldCase(digits[i]) != 'h';
    RemoveAllAbsent(digits, "$", false);
    RemoveAllAbsent(digits, "&h", true);
    RemoveAllAbsent(digits, "0x", false);
  }

  lemma DollarPrefixStripped(digits: seq<char>)
    requires HexDigits(digits)
    ensures StripHexPrefixes("$" + digits) == digits
  {
    var s := "$" + digits;
    HexDigitsUntouched(digits);
    assert StartsWith(s, "$", false);
    assert s[1..] == digits;
  }

  lemma AmpHPrefixStripped(h: char, digits: seq<char>)
    requires h == 'h' || h == 'H'
    requires HexDigits(digits)
    ensures StripHexPrefixes(['&', h] + digits) == digits
  {
    var s := ['&', h] + digits;
    HexDigitsUntouched(digits);
    assert forall i :: 0 <= i < |s| ==> s[i] != '$';
    RemoveAllAbsent(s, "$", false);
    assert StartsWith(s, "&h", true);
    assert s[2..] == digits;
  }

  lemma ZeroXPrefixStripped(digits: seq<char>)
    requires HexDigits(digits)
    ensures StripHexPrefixes("0x" + digits) == digits
  {
    var s := "0x" + digits;
    HexDigitsUntouched(digits);
    assert forall i :: 0 <= i < |s| ==> s[i] != '$' && FoldCase(s[i]) != 'h';
    RemoveAllAbsent(s, "$", false);
    RemoveAllAbsent(s, "&h", true);
    assert StartsWith(s, "0x", false);
    assert s[2..] == digits;
  }

  /** A string of hex digits preceded by any of the supported prefixes strips back to the digits. */
  lemma HexPrefixStripped(prefix: string, digits: seq<char>)
    requires prefix in {"", "$", "&h", "&H", "0x"}
    requires HexDigits(digits)
    ensures StripHexPrefixes(prefix + digits) == digits
  {
    if prefix == "$" {
      DollarPrefixStripped(digits);
    } else if prefix == "&h" {
      AmpHPrefixStripped('h', digits);
    } else if prefix == "&H" {
      AmpHPrefixStripped('H', digits);
    } else if prefix == "0x" {
      ZeroXPrefixStripped(digits);
    } else {
      assert prefix + digits == digits;
      HexDigitsUntouched(digits);
    }
  }

  /** readHex's conversion: strip the prefixes, then parse base 16 into 64 bits. */
  function ParseHex(s: seq<char>): (r: Option<nat>)
    ensures r.Some? ==> r.value < UInt64Limit
  {
    ToULongLong(StripHexPrefixes(s), 16)
  }

  /** A number written in hex with any supported prefix reads back as that number. */
  lemma HexReadsBack(prefix: string, n: nat)
    requires prefix in {"", "$", "&h", "&H", "0x"}
    requires n < UInt64Limit
    ensures ParseHex(prefix + Render(n, 16)) == Some(n)
  {
    HexPrefixStripped(prefix, Render(n, 16));
    RenderParses(n, 16, UInt64Limit);
  }

  lemma FFIs255()
    ensures HexDigits("FF") && ToULongLong("FF", 16) == Some(255)
  {
    assert DigitsValue("F", 16) == Some(15) by {
      assert "F"[..0] == [];
    }
    assert "FF"[..1] == "F";
  }

  lemma PrefixedFF(prefix: string, s: string)
    requires prefix in {"$", "&h", "0x"} && s == prefix + "FF"
    ensures ParseHex(s) == Some(255)
  {
    FFIs255();
    HexPrefixStripped(prefix, "FF");
  }

  /** "0xFF" reads as 255. */
  lemma ZeroXExample()
    ensures ParseHex("0xFF") == Some(255)
  {
    PrefixedFF("0x", "0xFF");
  }

  /** "$FF" reads as 255. */
  lemma DollarExample()
    ensures ParseHex("$FF") == Some(255)
  {
    PrefixedFF("$", "$FF");
  }

  /** "&hFF" reads as 255. */
  lemma AmpHExample()
    ensures ParseHex("&hFF") == Some(255)
  {
    PrefixedFF("&h", "&hFF");
  }

  lemma InnerDollarStripped(s: string)
    requires s == "F" + "$F"
    ensures StripHexPrefixes(s) == "FF"
  {
    assert RemoveAll(s, "$", false) == "FF" by {
      assert !StartsWith(s, "$", false);
      assert s[1..] == "$F";
      assert StartsWith("$F", "$", false);
      assert "$F"[1..] == "F";
      assert !StartsWith("F", "$", false);
      assert "F"[1..] == [];
    }
    FFIs255();
    HexDigitsUntouched("FF");
  }

  /** Prefixes are removed wherever they occur: "F$F" reads as 255 too. */
  lemma InnerDollarExample()
    ensures ParseHex("F$F") == Some(255)
  {
    InnerDollarStripped("F$F");
    FFIs255();
  }

  /** An empty hex read fails. */
  lemma EmptyHexFails()
    ensures ParseHex("") == None
  {
    HexDigitsUntouched([]);
  }

  /** A diagnostic line and the state it is written in. */
  datatype Diagnostic = Diagnostic(state: TextState, line: string)

  /** What a numeric read ends with: the status flag, the value returned, and the diagnostic written, if any. */
  datatype Outcome = Outcome(status: TextState, value: nat, diagnostic: Option<Diagnostic>)

  /**
   * The outcome of readByte, readUInt16 and readUInt32 for a parsed value and a
   * width mask: an unparsable text is an Error worth 0, a value beyond the mask is
   * a Warning worth its low bits (`b & mask`), anything else a silent Success.
   */
  function NarrowOutcome(parsed: Option<nat>, mask: nat, rangeLine: string): (o: Outcome)
    ensures o.value <= mask
    ensures o.status != Normal
    ensures o.diagnostic.None? <==> o.status == Success
    ensures o.diagnostic.Some? ==> o.diagnostic.value.state == o.status
    ensures o.status == Error <==> parsed.None?
    ensures o.status == Error ==> o.value == 0 && o.diagnostic.value.line == NotANumber
    ensures o.status == Success <==> parsed.Some? && parsed.value <= mask
    ensures o.status == Warning ==> o.diagnostic.value.line == rangeLine
    ensures parsed.Some? ==> o.value % (mask + 1) == parsed.value % (mask + 1)
  {
    match parsed
    case None => Outcome(Error, 0, Some(Diagnostic(Error, NotANumber)))
    case Some(b) =>
      if b > mask then
        assert (b % (mask + 1)) % (mask + 1) == b % (mask + 1);
        Outcome(Warning, b % (mask + 1), Some(Diagnostic(Warning, rangeLine)))
      else Outcome(Success, b, None)
  }

  /** A value in range reads back unchanged and silently. */
  lemma InRangeIsSilent(parsed: Option<nat>, mask: nat, rangeLine: string)
    requires parsed.Some? && parsed.value <= mask
    ensures NarrowOutcome(parsed, mask, rangeLine) == Outcome(Success, parsed.value, None)
  {
    var o := NarrowOutcome(parsed, mask, rangeLine);
    assert o.value % (mask + 1) == o.value;
  }

  /** readByte on "256" warns and gives 0; on "xyz" it fails and gives 0. */
  lemma ByteExamples()
    ensures NarrowOutcome(ToUInt("256"), 0xFF, ByteRange) == Outcome(Warning, 0, Some(Diagnostic(Warning, ByteRange)))
    ensures NarrowOutcome(ToUInt("xyz"), 0xFF, ByteRange) == Outcome(Error, 0, Some(Diagnostic(Error, NotANumber)))
  {
    assert DigitsValue("2", 10) == Some(2) by {
      assert "2"[..0] == [];
    }
    assert DigitsValue("25", 10) == Some(25) by {
      assert "25"[..1] == "2";
    }
    assert DigitsValue("256", 10) == Some(256) by {
      assert "256"[..2] == "25";
    }
    assert DigitValue("xyz"[0], 10).None?;
  }

  /**
   * The outcome of readUInt64 and readHex, which have no range check:
   * an Error worth 0 when the text does not parse, a silent Success otherwise.
   */
  function WideOutcome(parsed: Option<nat>, failureLine: string): (o: Outcome)
    ensures o.status == Success || o.status == Error
    ensures o.status == Error <==> parsed.None?
    ensures o.status == Error ==> o.value == 0 && o.diagnostic == Some(Diagnostic(Error, failureLine))
    ensures o.status == Success ==> parsed == Some(o.value) && o.diagnostic.None?
  {
    match parsed
    case None => Outcome(Error, 0, Some(Diagnostic(Error, failureLine)))
    case Some(v) => Outcome(Success, v, None)
  }

  // ----- Writing numbers -----

  /** The base writeUInt64 passes to QString::number, as written: Binary selects 1, not a base Qt accepts. */
  function FormatBaseAsWritten(f: NumberFormat): (b: int)
    ensures ValidRadix(b) <==> f != Binary
  {
    match f
    case Binary => 1
    case Octal => 8
    case Decimal => 10
    case Hexadecimal => 16
  }

  /** The base of a number format, with Binary as base 2; the others as written. */
  function FormatBase(f: NumberFormat): (b: nat)
    ensures ValidRadix(b)
    ensures f == Binary ==> b == 2
    ensures f != Binary ==> b == FormatBaseAsWritten(f)
  {
    match f
    case Binary => 2
    case Octal => 8
    case Decimal => 10
    case Hexadecimal => 16
  }

  /** Every unsigned 64-bit number written in any format parses back, in that format's base, to itself. */
  lemma WrittenNumberReadsBack(n: nat, f: NumberFormat)
    requires n < UInt64Limit
    ensures ToULongLong(Render(n, FormatBase(f)), FormatBase(f)) == Some(n)
  {
    RenderParses(n, FormatBase(f), UInt64Limit);
  }

  class Terminal {
    const design: Design
    /** The text widget's content and its caret. */
    var buffer: seq<Cell>
    var caret: nat
    /** The widget's current character format, used by writes and typed text. */
    var format: CharFormat
    /** The status of the last typed read. */
    var flag: TextState
    /** The read session. */
    var caretPos: nat
    var initialPos: nat
    var isReturnPressed: bool
    var isReading: bool

    predicate Valid()
      reads this
    {
      caret <= |buffer|
    }

    /** The session invariant the filter keeps while reading. */
    ghost predicate Guarded()
      reads this
    {
      isReading ==> initialPos <= caretPos && initialPos <= |buffer|
    }

    function Text(): seq<char>
      reads this
    {
      Chars(buffer)
    }

    /** What the read would return now. */
    function RawText(): seq<char>
      reads this
      requires Valid()
    {
      SelectedSpan(Text(), caret, initialPos)
    }

    /**
     * The caret is at the end, or before the recorded position: either way the filter
     * makes the next key act at the end.
     */
    ghost predicate KeysGoToEnd()
      reads this
    {
      caret < caretPos || caret == |buffer|
    }

    /** The caret a key acts at once the filter has moved a caret found before `caretPos` to the end. */
    function GuardedCaret(): nat
      reads this
    {
      if caret < caretPos then |buffer| else caret
    }

    constructor ()
      ensures fresh(design) && design.Value() == DefaultValue
      ensures buffer == [] && caret == 0 && format == DefaultFormat
      ensures flag == Success && caretPos == 0 && initialPos == 0
      ensures !isReturnPressed && !isReading
    {
      design := new Design();
      buffer, caret, format := [], 0, DefaultFormat;
      flag, caretPos, initialPos := Success, 0, 0;
      isReturnPressed, isReading := false, false;
    }

    /** The status of the last typed read. */
    function Flag(): (s: TextState)
      reads this
      ensures s == flag
    {
      flag
    }

    // ----- Output -----

    /** The format for later writes; text already written keeps its own. */
    method SetCurrentState(state: TextState, highlight: bool)
      modifies this`format
      ensures format == StateFormat(design.Value(), state, highlight)
    {
      var fg: Color;
      match state {
        case Normal => fg := design.TextColor();
        case Error => fg := design.ErrorColor();
        case Success => fg := design.SuccessColor();
        case Warning => fg := design.WarningColor();
      }
      var background := if highlight then Some(design.HighlightColor()) else None;
      format := CharFormat(design.CurrentFont(), fg, background);
    }

    /** Empties the text. The widget restores the cursor's current format
        after clearing the document, so the format of the next write is kept;
        the read session and the flag are not touched. */
    method Clear()
      modifies this`buffer, this`caret
      ensures buffer == [] && caret == 0 && Valid()
    {
      buffer, caret := [], 0;
    }

    method WriteString(s: string)
      requires Valid()
      modifies this`buffer, this`caret
      ensures buffer == Inserted(old(buffer), old(caret), Paint(s, format))
      ensures caret == |buffer|
      ensures Text() == old(Text())[..old(caret)] + s + old(Text())[old(caret)..]
    {
      buffer := Inserted(buffer, caret, Paint(s, format));
      caret := |buffer|;
      CharsAppend(old(buffer)[..old(caret)] + Paint(s, format), old(buffer)[old(caret)..]);
      CharsAppend(old(buffer)[..old(caret)], Paint(s, format));
    }

    method WriteChar(c: char)
      requires Valid()
      modifies this`buffer, this`caret
      ensures buffer == Inserted(old(buffer), old(caret), [Cell(c, format)])
      ensures caret == |buffer|
    {
      buffer := Inserted(buffer, caret, [Cell(c, format)]);
      caret := |buffer|;
    }

    /** The line, and then a line break, inserted at the caret; the break takes the same format. */
    method WriteLine(l: string)
      requires Valid()
      modifies this`buffer, this`caret
      ensures buffer == Inserted(old(buffer), old(caret), Paint(l + "\n", format))
      ensures caret == |buffer|
    {
      var at := caret;
      buffer := Inserted(buffer, at, Paint(l, format));
      buffer := Inserted(buffer, at + |l|, Paint("\n", format));
      caret := |buffer|;
      InsertedTwice(old(buffer), at, Paint(l, format), Paint("\n", format));
      PaintAppend(l, "\n", format);
    }

    /** The number rendered in the format's base (Binary as base 2). */
    method WriteUInt64(b: nat, f: NumberFormat)
      requires Valid() && b < UInt64Limit
      modifies this`buffer, this`caret
      ensures buffer == Inserted(old(buffer), old(caret), Paint(Render(b, FormatBase(f)), format))
      ensures caret == |buffer|
    {
      var radix: nat;
      match f {
        case Binary => radix := 2;
        case Octal => radix := 8;
        case Decimal => radix := 10;
        case Hexadecimal => radix := 16;
      }
      var s := Render(b, radix);
      WriteString(s);
    }

    method WriteByte(b: nat, f: NumberFormat)
      requires Valid() && b < 0x100
      modifies this`buffer, this`caret
      ensures buffer == Inserted(old(buffer), old(caret), Paint(Render(b, FormatBase(f)), format))
      ensures caret == |buffer|
    {
      WriteUInt64(b, f);
    }

    method WriteUInt16(b: nat, f: NumberFormat)
      requires Valid() && b < 0x1_0000
      modifies this`buffer, this`caret
      ensures buffer == Inserted(old(buffer), old(caret), Paint(Render(b, FormatBase(f)), format))
      ensures caret == |buffer|
    {
      WriteUInt64(b, f);
    }

    method WriteUInt32(b: nat, f: NumberFormat)
      requires Valid() && b < UInt32Limit
      modifies this`buffer, this`caret
      ensures buffer == Inserted(old(buffer), old(caret), Paint(Render(b, FormatBase(f)), format))
      ensures caret == |buffer|
    {
      WriteUInt64(b, f);
    }

    // ----- The read session -----

    /** The first half of the blocking read: the session starts at the caret. */
    method BeginRead()
      requires Valid()
      modifies this`initialPos, this`caretPos, this`isReading
      ensures initialPos == caret && caretPos == caret && isReading
      ensures Guarded()
    {
      initialPos := caret;
      caretPos := caret;
      isReading := true;
    }

    /**
     * The event filter, which sees every event before the text widget does. It
     * acts only on key presses during a read: a Backspace at or before the read
     * start is swallowed; otherwise a caret found before the last recorded
     * position is moved to the end, Return is latched, and the caret is recorded.
     */
    method Filter(e: Event) returns (consumed: bool)
      requires Valid()
      modifies this`caret, this`caretPos, this`isReturnPressed
      ensures Valid()
      ensures consumed <==> isReading && e == KeyPress(Backspace) && old(caret) <= initialPos
      ensures !isReading || !e.KeyPress? || consumed ==>
        caret == old(caret) && caretPos == old(caretPos) && isReturnPressed == old(isReturnPressed)
      ensures isReading && e.KeyPress? && !consumed ==>
        caret == old(GuardedCaret()) && caretPos == caret &&
        isReturnPressed == (old(isReturnPressed) || e.key == Return)
      ensures old(Guarded()) ==> Guarded()
    {
      consumed := false;
      if isReading && e.KeyPress? {
        if e.key == Backspace && caret <= initialPos {
          consumed := true;
        } else {
          if caret < caretPos {
            caret := |buffer|;
          }
          if e.key == Return {
            isReturnPressed := true;
          }
          caretPos := caret;
        }
      }
    }

    /** The text widget handles a key the filter let through. */
    method Deliver(key: Key)
      requires Valid()
      modifies this`buffer, this`caret
      ensures Valid()
      ensures Edit(buffer, caret) == KeyEffect(old(buffer), old(caret), key, format)
    {
      var e := KeyEffect(buffer, caret, key, format);
      buffer, caret := e.text, e.caret;
    }

    /**
     * A key press: the filter, then, unless it swallowed the key, the widget.
     * During a read the text before the read start is never changed.
     */
    method Press(key: Key) returns (consumed: bool)
      requires Valid()
      modifies this`buffer, this`caret, this`caretPos, this`isReturnPressed
      ensures Valid()
      ensures consumed <==> isReading && key == Backspace && old(caret) <= initialPos
      ensures consumed ==>
        buffer == old(buffer) && caret == old(caret) &&
        caretPos == old(caretPos) && isReturnPressed == old(isReturnPressed)
      ensures !consumed ==>
        Edit(buffer, caret) == KeyEffect(old(buffer), if isReading then old(GuardedCaret()) else old(caret), key, format)
      ensures !isReading ==> caretPos == old(caretPos) && isReturnPressed == old(isReturnPressed)
      ensures isReading && !consumed ==>
        caretPos == old(GuardedCaret()) && isReturnPressed == (old(isReturnPressed) || key == Return)
      ensures isReading && old(Guarded()) ==>
        Guarded() && buffer[..initialPos] == old(buffer)[..initialPos]
      ensures isReading && old(KeysGoToEnd()) ==>
        KeysGoToEnd() && (consumed || Edit(buffer, caret) == KeyEffect(old(buffer), |old(buffer)|, key, format))
    {
      consumed := Filter(KeyPress(key));
      if !consumed {
        ghost var before := buffer;
        ghost var q := caret;
        Deliver(key);
        if isReading && old(Guarded()) {
          var p := EditPoint(q, key);
          assert initialPos <= p;
          assert buffer[..initialPos] == buffer[..p][..initialPos];
          assert before[..initialPos] == before[..p][..initialPos];
        }
      }
    }

    /**
     * The key press the filter's comment intends: during a read a caret anywhere
     * before the end is moved to the end, so that every key acts at the end
     * whatever the mouse did in between.
     */
    method PressAtEnd(key: Key) returns (consumed: bool)
      requires Valid()
      modifies this`buffer, this`caret, this`caretPos, this`isReturnPressed
      ensures Valid()
      ensures consumed <==> isReading && key == Backspace && old(caret) <= initialPos
      ensures consumed ==>
        buffer == old(buffer) && caret == old(caret) &&
        caretPos == old(caretPos) && isReturnPressed == old(isReturnPressed)
      ensures !consumed ==>
        Edit(buffer, caret) == KeyEffect(old(buffer), if isReading then |old(buffer)| else old(caret), key, format)
      ensures !isReading ==> caretPos == old(caretPos) && isReturnPressed == old(isReturnPressed)
      ensures isReading && !consumed ==>
        caretPos == |old(buffer)| && isReturnPressed == (old(isReturnPressed) || key == Return)
      ensures isReading && initialPos <= |old(buffer)| ==>
        initialPos <= |buffer| && buffer[..initialPos] == old(buffer)[..initialPos]
    {
      consumed := false;
      if isReading {
        if key == Backspace && caret <= initialPos {
          consumed := true;
        } else {
          caret := |buffer|;
          if key == Return {
            isReturnPressed := true;
          }
          caretPos := caret;
        }
      }
      if !consumed {
        ghost var before := buffer;
        ghost var q := caret;
        Deliver(key);
        if isReading && initialPos <= |before| {
          var p := EditPoint(q, key);
          assert initialPos <= p;
          assert buffer[..initialPos] == buffer[..p][..initialPos];
          assert before[..initialPos] == before[..p][..initialPos];
        }
      }
    }

    /** A mouse click: not a key press, so the filter lets it through unchanged, and the widget moves the caret. */
    method Click(p: nat)
      requires Valid() && p <= |buffer|
      modifies this`caret, this`caretPos, this`isReturnPressed
      ensures caret == p && caretPos == old(caretPos) && isReturnPressed == old(isReturnPressed)
      ensures old(Guarded()) ==> Guarded()
    {
      var consumed := Filter(OtherEvent);
      caret := p;
    }

    /**
     * The second half of the blocking read, once Return has been latched: the
     * session ends and the text typed since the read start is returned, without
     * the line break Return inserted.
     */
    method FinishRead() returns (s: seq<char>)
      requires Valid() && isReturnPressed
      modifies this`isReading, this`isReturnPressed
      ensures !isReading && !isReturnPressed
      ensures s == RawText()
      ensures initialPos < caret ==> s == Text()[initialPos..caret - 1]
    {
      isReading := false;
      isReturnPressed := false;
      s := SelectedSpan(Text(), caret, initialPos);
    }

    // ----- Typed reads (each the part after the read's wait) -----

    method ReadLine() returns (s: string)
      requires Valid() && isReturnPressed
      modifies this`isReading, this`isReturnPressed
      ensures !isReading && !isReturnPressed && flag == old(flag)
      ensures s == old(RawText())
    {
      s := FinishRead();
    }

    method ReadString(size: nat) returns (s: string)
      requires Valid() && isReturnPressed
      modifies this`isReading, this`isReturnPressed
      ensures !isReading && !isReturnPressed && flag == old(flag)
      ensures s == Left(old(RawText()), size)
      ensures |s| == if size < |old(RawText())| then size else |old(RawText())|
    {
      s := FinishRead();
      s := Left(s, size);
    }

    /** The first character read, or None for an empty read. */
    method ReadChar() returns (c: Option<char>)
      requires Valid() && isReturnPressed
      modifies this`isReading, this`isReturnPressed
      ensures !isReading && !isReturnPressed && flag == old(flag)
      ensures c == FirstChar(old(RawText()))
    {
      var s := FinishRead();
      c := FirstChar(s);
    }

    /** The buffer, caret and format after a read that wrote `diagnostic`, if any, starting from the given ones. */
    ghost predicate Reported(text: seq<Cell>, at: nat, fmt: CharFormat, diagnostic: Option<Diagnostic>)
      reads this, design
      requires at <= |text|
    {
      match diagnostic
      case None => buffer == text && caret == at && format == fmt
      case Some(dg) =>
        && buffer == Inserted(text, at, Paint(dg.line + "\n", StateFormat(design.Value(), dg.state, false)))
        && caret == |buffer|
        && format == StateFormat(design.Value(), Normal, false)
    }

    /** A diagnostic line in the given state, the format put back to Normal, and the flag set to the state. */
    method Report(dg: Diagnostic)
      requires Valid()
      modifies this`buffer, this`caret, this`format, this`flag
      ensures Valid() && flag == dg.state
      ensures Reported(old(buffer), old(caret), old(format), Some(dg))
    {
      SetCurrentState(dg.state, false);
      WriteLine(dg.line);
      SetCurrentState(Normal, false);
      flag := dg.state;
    }

    /** The common tail of readByte, readUInt16 and readUInt32. */
    method ReadNarrow(parsed: Option<nat>, mask: nat, rangeLine: string) returns (v: nat)
      requires Valid()
      modifies this`buffer, this`caret, this`format, this`flag
      ensures Valid()
      ensures var o := NarrowOutcome(parsed, mask, rangeLine);
        && v == o.value
        && (o.status == Success ==> flag == old(flag))
        && (o.status != Success ==> flag == o.status)
        && Reported(old(buffer), old(caret), old(format), o.diagnostic)
    {
      if parsed.None? {
        Report(Diagnostic(Error, NotANumber));
        v := 0;
      } else if parsed.value > mask {
        Report(Diagnostic(Warning, rangeLine));
        v := parsed.value % (mask + 1);
      } else {
        v := parsed.value;
      }
    }

    method ReadByte() returns (v: nat)
      requires Valid() && isReturnPressed
      modifies this`isReading, this`isReturnPressed, this`buffer, this`caret, this`format, this`flag
      ensures Valid() && !isReading && !isReturnPressed
      ensures var o := NarrowOutcome(ToUInt(old(RawText())), 0xFF, ByteRange);
        v == o.value && flag == o.status && Reported(old(buffer), old(caret), old(format), o.diagnostic)
    {
      var s := FinishRead();
      flag := Success;
      v := ReadNarrow(ToUInt(s), 0xFF, ByteRange);
    }

    method ReadUInt16() returns (v: nat)
      requires Valid() && isReturnPressed
      modifies this`isReading, this`isReturnPressed, this`buffer, this`caret, this`format, this`flag
      ensures Valid() && !isReading && !isReturnPressed
      ensures var o := NarrowOutcome(ToUInt(old(RawText())), 0xFFFF, ShortRange);
        v == o.value && flag == o.status && Reported(old(buffer), old(caret), old(format), o.diagnostic)
    {
      var s := FinishRead();
      flag := Success;
      v := ReadNarrow(ToUInt(s), 0xFFFF, ShortRange);
    }

    method ReadUInt32() returns (v: nat)
      requires Valid() && isReturnPressed
      modifies this`isReading, this`isReturnPressed, this`buffer, this`caret, this`format, this`flag
      ensures Valid() && !isReading && !isReturnPressed
      ensures var o := NarrowOutcome(ToULongLong(old(RawText()), 10), 0xFFFF_FFFF, IntegerRange);
        v == o.value && flag == o.status && Reported(old(buffer), old(caret), old(format), o.diagnostic)
    {
      var s := FinishRead();
      flag := Success;
      v := ReadNarrow(ToULongLong(s, 10), 0xFFFF_FFFF, IntegerRange);
    }

    /** The common tail of readUInt64 and readHex. */
    method ReadWide(parsed: Option<nat>, failureLine: string) returns (v: nat)
      requires Valid()
      modifies this`buffer, this`caret, this`format, this`flag
      ensures Valid()
      ensures var o := WideOutcome(parsed, failureLine);
        && v == o.value
        && (o.status == Success ==> flag == old(flag))
        && (o.status != Success ==> flag == o.status)
        && Reported(old(buffer), old(caret), old(format), o.diagnostic)
    {
      if parsed.None? {
        Report(Diagnostic(Error, failureLine));
        v := 0;
      } else {
        v := parsed.value;
      }
    }

    method ReadUInt64() returns (v: nat)
      requires Valid() && isReturnPressed
      modifies this`isReading, this`isReturnPressed, this`buffer, this`caret, this`format, this`flag
      ensures Valid() && !isReading && !isReturnPressed
      ensures var o := WideOutcome(ToULongLong(old(RawText()), 10), NotANumber);
        v == o.value && flag == o.status && Reported(old(buffer), old(caret), old(format), o.diagnostic)
    {
      var s := FinishRead();
      flag := Success;
      v := ReadWide(ToULongLong(s, 10), NotANumber);
    }

    method ReadHex() returns (v: nat)
      requires Valid() && isReturnPressed
      modifies this`isReading, this`isReturnPressed, this`buffer, this`caret, this`format, this`flag
      ensures Valid() && !isReading && !isReturnPressed
      ensures var o := WideOutcome(ParseHex(old(RawText())), NotAHexNumber);
        v == o.value && flag == o.status && Reported(old(buffer), old(caret), old(format), o.diagnostic)
    {
      var s := FinishRead();
      flag := Success;
      var digits := StripHexPrefixes(s);
      v := ReadWide(ToULongLong(digits, 16), NotAHexNumber);
    }

    // ----- The palette editor -----

    /** The first half of showPaletteEditor: an editor holding a copy of the design. */
    method OpenPaletteEditor() returns (editor: FormatEditor.Editor)
      ensures fresh(editor) && fresh(editor.design)
      ensures editor.design.Value() == design.Value()
    {
      editor := new FormatEditor.Editor();
      editor.SetDesign(design);
    }

    /** The second half: the editor's design replaces the terminal's only when the dialog was accepted. */
    method ClosePaletteEditor(editor: FormatEditor.Editor, code: DialogCode)
      modifies design
      ensures design.Value() == if code == Accepted then old(editor.design.Value()) else old(design.Value())
    {
      if code == Accepted {
        design.Assign(editor.CurrentDesign());
      }
    }
  }
}
