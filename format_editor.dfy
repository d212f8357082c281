/**
 * The palette editor dialog: it holds a design of its own and, for each colour
 * button, offers the current colour in a colour dialog and stores the accepted one.
 */
module FormatEditor {
  import opened Wrappers
  import opened TerminalDesign

  /** The colour slot a button edits, by the button's object name; None for any other name. */
  function SenderRole(sender: string): (r: Option<ColorRole>)
    ensures r.Some? <==> sender in {"btnBack", "btnText", "btnSucc", "btnErro", "btnWarn", "btnHigh"}
  {
    if sender == "btnBack" then Some(BackRole)
    else if sender == "btnText" then Some(TextRole)
    else if sender == "btnSucc" then Some(SuccessRole)
    else if sender == "btnErro" then Some(ErrorRole)
    else if sender == "btnWarn" then Some(WarningRole)
    else if sender == "btnHigh" then Some(HighlightRole)
    else None
  }

  /** The colour the dialog is opened with: the sender's slot, or an invalid colour (None) for an unknown sender. */
  function InitialColor(d: DesignValue, sender: string): (c: Option<Color>)
    ensures c.Some? <==> SenderRole(sender).Some?
    ensures c.Some? ==> c.value == ColorOf(d, SenderRole(sender).value)
  {
    match SenderRole(sender)
    case None => None
    case Some(role) => Some(ColorOf(d, role))
  }

  /**
   * The design after one button press: the accepted colour goes into the sender's slot;
   * a rejected dialog or an unknown sender leaves the design as it was.
   */
  function Edited(d: DesignValue, sender: string, accepted: Option<Color>): (r: DesignValue)
    ensures accepted.None? ==> r == d
    ensures SenderRole(sender).None? ==> r == d
    ensures accepted.Some? && SenderRole(sender).Some? ==>
      ColorOf(r, SenderRole(sender).value) == accepted.value && r.font == d.font &&
      forall other :: other != SenderRole(sender).value ==> ColorOf(r, other) == ColorOf(d, other)
  {
    if accepted.Some? && SenderRole(sender).Some? then WithColor(d, SenderRole(sender).value, accepted.value) else d
  }

  /*
   * Each button edits its own slot. The six names differ in their fourth letter,
   * which is what tells them apart.
   */
  lemma BackButtonEditsBack(d: DesignValue, c: Color)
    ensures SenderRole("btnBack") == Some(BackRole)
    ensures Edited(d, "btnBack", Some(c)) == d.(back := c)
  {
  }

  lemma TextButtonEditsText(d: DesignValue, c: Color)
    ensures SenderRole("btnText") == Some(TextRole)
    ensures Edited(d, "btnText", Some(c)) == d.(text := c)
  {
    assert "btnText"[3] != "btnBack"[3];
  }

  lemma SuccButtonEditsSuccess(d: DesignValue, c: Color)
    ensures SenderRole("btnSucc") == Some(SuccessRole)
    ensures Edited(d, "btnSucc", Some(c)) == d.(success := c)
  {
    assert "btnSucc"[3] != "btnBack"[3];
    assert "btnSucc"[3] != "btnText"[3];
  }

  lemma ErroButtonEditsError(d: DesignValue, c: Color)
    ensures SenderRole("btnErro") == Some(ErrorRole)
    ensures Edited(d, "btnErro", Some(c)) == d.(error := c)
  {
    assert "btnErro"[3] != "btnBack"[3];
    assert "btnErro"[3] != "btnText"[3];
    assert "btnErro"[3] != "btnSucc"[3];
  }

  lemma WarnButtonEditsWarning(d: DesignValue, c: Color)
    ensures SenderRole("btnWarn") == Some(WarningRole)
    ensures Edited(d, "btnWarn", Some(c)) == d.(warning := c)
  {
    assert "btnWarn"[3] != "btnBack"[3];
    assert "btnWarn"[3] != "btnText"[3];
    assert "btnWarn"[3] != "btnSucc"[3];
    assert "btnWarn"[3] != "btnErro"[3];
  }

  lemma HighButtonEditsHighlight(d: DesignValue, c: Color)
    ensures SenderRole("btnHigh") == Some(HighlightRole)
    ensures Edited(d, "btnHigh", Some(c)) == d.(highlight := c)
  {
    assert "btnHigh"[3] != "btnBack"[3];
    assert "btnHigh"[3] != "btnText"[3];
    assert "btnHigh"[3] != "btnSucc"[3];
    assert "btnHigh"[3] != "btnErro"[3];
    assert "btnHigh"[3] != "btnWarn"[3];
  }

  class Editor {
    const design: Design

    /** A new editor holds a default design until SetDesign is called. */
    constructor ()
      ensures fresh(design) && design.Value() == DefaultValue
    {
      design := new Design();
    }

    /** Copies `d` into the editor's own design. */
    method SetDesign(d: Design)
      modifies design
      ensures design.Value() == old(d.Value())
    {
      design.Assign(d);
    }

    /** The editor's design, the one its buttons edit. */
    function CurrentDesign(): (d: Design)
      ensures d == design
    {
      design
    }

    /**
     * A press of the button named `sender`. `colorDialog` is the colour dialog: given the
     * colour it is opened with, it yields the colour chosen when accepted, or None when rejected.
     */
    method OpenDialog(sender: string, colorDialog: Option<Color> -> Option<Color>)
      modifies design
      ensures design.Value() == Edited(old(design.Value()), sender, colorDialog(InitialColor(old(design.Value()), sender)))
    {
      var initial: Option<Color> := None;
      if sender == "btnBack" {
        initial := Some(design.BackColor());
      } else if sender == "btnText" {
        initial := Some(design.TextColor());
      } else if sender == "btnSucc" {
        initial := Some(design.SuccessColor());
      } else if sender == "btnErro" {
        initial := Some(design.ErrorColor());
      } else if sender == "btnWarn" {
        initial := Some(design.WarningColor());
      } else if sender == "btnHigh" {
        initial := Some(design.HighlightColor());
      }

      var chosen := colorDialog(initial);
      if chosen.Some? {
        if sender == "btnBack" {
          design.SetBackColor(chosen.value);
        } else if sender == "btnText" {
          design.SetTextColor(chosen.value);
        } else if sender == "btnSucc" {
          design.SetSuccessColor(chosen.value);
        } else if sender == "btnErro" {
          design.SetErrorColor(chosen.value);
        } else if sender == "btnWarn" {
          design.SetWarningColor(chosen.value);
        } else if sender == "btnHigh" {
          design.SetHighlightColor(chosen.value);
        }
      }
    }
  }
}
