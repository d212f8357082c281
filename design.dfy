/** The terminal's design: six colours and a font, each independently settable. */
module TerminalDesign {

  /** A colour as a 32-bit ARGB word. */
  type Color = bv32

  /** The font, kept opaque except for the attributes the default design sets. */
  datatype Font = Font(family: string, pointSize: int, typeWriterHint: bool)

  /** The value of a design: what a copy of it carries. */
  datatype DesignValue = DesignValue(
    back: Color, text: Color, font: Font,
    error: Color, success: Color, warning: Color, highlight: Color)

  /** The six colour slots of a design. */
  datatype ColorRole = BackRole | TextRole | SuccessRole | ErrorRole | WarningRole | HighlightRole

  const DefaultFont: Font := Font("Monospace", 10, true)

  const DefaultValue: DesignValue :=
    DesignValue(0xff333333, 0xffdddddd, DefaultFont, 0xffff3000, 0xff30ff00, 0xffff8000, 0xff3030ff)

  /** The colour a design holds in the given slot. */
  function ColorOf(d: DesignValue, role: ColorRole): Color
  {
    match role
    case BackRole => d.back
    case TextRole => d.text
    case SuccessRole => d.success
    case ErrorRole => d.error
    case WarningRole => d.warning
    case HighlightRole => d.highlight
  }

  /** The design with one colour slot replaced: that slot reads back `c`, every other slot and the font are kept. */
  function WithColor(d: DesignValue, role: ColorRole, c: Color): (r: DesignValue)
    ensures ColorOf(r, role) == c
    ensures r.font == d.font
    ensures forall other :: other != role ==> ColorOf(r, other) == ColorOf(d, other)
  {
    match role
    case BackRole => d.(back := c)
    case TextRole => d.(text := c)
    case SuccessRole => d.(success := c)
    case ErrorRole => d.(error := c)
    case WarningRole => d.(warning := c)
    case HighlightRole => d.(highlight := c)
  }

  class Design {
    var backColor: Color
    var textColor: Color
    var font: Font
    var errorColor: Color
    var successColor: Color
    var warningColor: Color
    var highlightColor: Color

    /** The design as a value. */
    function Value(): DesignValue
      reads this
    {
      DesignValue(backColor, textColor, font, errorColor, successColor, warningColor, highlightColor)
    }

    /** The default design: dark grey background, light grey text, a 10-point typewriter "Monospace" font. */
    constructor ()
      ensures Value() == DefaultValue
      ensures Value().font.pointSize == 10
    {
      backColor := 0xff333333;
      textColor := 0xffdddddd;
      font := Font("Monospace", 10, true);
      errorColor := 0xffff3000;
      successColor := 0xff30ff00;
      warningColor := 0xffff8000;
      highlightColor := 0xff3030ff;
    }

    /** The defaulted copy constructor. */
    constructor Copy(other: Design)
      ensures Value() == other.Value()
    {
      backColor := other.backColor;
      textColor := other.textColor;
      font := other.font;
      errorColor := other.errorColor;
      successColor := other.successColor;
      warningColor := other.warningColor;
      highlightColor := other.highlightColor;
    }

    /** The implicit copy assignment `*this = other`. */
    method Assign(other: Design)
      modifies this
      ensures Value() == old(other.Value())
    {
      backColor, textColor, font := other.backColor, other.textColor, other.font;
      errorColor, successColor := other.errorColor, other.successColor;
      warningColor, highlightColor := other.warningColor, other.highlightColor;
    }

    function BackColor(): (c: Color)
      reads this
      ensures c == ColorOf(Value(), BackRole)
    {
      backColor
    }

    function TextColor(): (c: Color)
      reads this
      ensures c == ColorOf(Value(), TextRole)
    {
      textColor
    }

    function CurrentFont(): (f: Font)
      reads this
      ensures f == Value().font
    {
      font
    }

    function ErrorColor(): (c: Color)
      reads this
      ensures c == ColorOf(Value(), ErrorRole)
    {
      errorColor
    }

    function SuccessColor(): (c: Color)
      reads this
      ensures c == ColorOf(Value(), SuccessRole)
    {
      successColor
    }

    function WarningColor(): (c: Color)
      reads this
      ensures c == ColorOf(Value(), WarningRole)
    {
      warningColor
    }

    function HighlightColor(): (c: Color)
      reads this
      ensures c == ColorOf(Value(), HighlightRole)
    {
      highlightColor
    }

    method SetBackColor(c: Color)
      modifies this
      ensures Value() == WithColor(old(Value()), BackRole, c)
      ensures BackColor() == c
    {
      backColor := c;
    }

    method SetTextColor(c: Color)
      modifies this
      ensures Value() == WithColor(old(Value()), TextRole, c)
      ensures TextColor() == c
    {
      textColor := c;
    }

    method SetFont(f: Font)
      modifies this
      ensures Value() == old(Value()).(font := f)
      ensures CurrentFont() == f
    {
      font := f;
    }

    method SetErrorColor(c: Color)
      modifies this
      ensures Value() == WithColor(old(Value()), ErrorRole, c)
      ensures ErrorColor() == c
    {
      errorColor := c;
    }

    method SetSuccessColor(c: Color)
      modifies this
      ensures Value() == WithColor(old(Value()), SuccessRole, c)
      ensures SuccessColor() == c
    {
      successColor := c;
    }

    method SetWarningColor(c: Color)
      modifies this
      ensures Value() == WithColor(old(Value()), WarningRole, c)
      ensures WarningColor() == c
    {
      warningColor := c;
    }

    method SetHighlightColor(c: Color)
      modifies this
      ensures Value() == WithColor(old(Value()), HighlightRole, c)
      ensures HighlightColor() == c
    {
      highlightColor := c;
    }
  }
}
