/** What the drawing log shows after a cell edit, and what it would write
    if the user confirms. The classification comes from module CellEdit;
    this module picks the dialog (title and text) in a fixed order of
    precedence and the database change that the OK button applies. */
module Prompts {
  import opened Results
  import opened Text
  import opened Digits
  import opened Numbering
  import opened Dates
  import opened CellEdit

  /** The dialog shown after an edit. */
  datatype Dialog =
    | Silent                              // nothing shown, nothing written
    | ErrorBox(text: string)              // titled "Error", no buttons, nothing written
    | Confirm(title: string, text: string)  // OK applies the change, Cancel does not
    | Crash                               // an exception escapes the handler

  /** The database change a confirmed edit makes. */
  datatype Action =
    | DeleteRecord(dwg: string)                             // the record shown as `dwg`
    | RestoreNumber(dwg: string, number: string)            // back to the generated number
    | OverwriteNumber(index: nat, text: string)             // the record at `index` gets a new text
    | RenumberRecord(dwg: string, newNumber: nat, newIndex: nat)  // new number and new index
    | SetPart(dwg: string, part: string, descrip: string)   // part number and description together
    | SetField(dwg: string, column: Column, value: string)  // any other single column

  datatype Response = Response(dialog: Dialog, action: Option<Action>)

  const ErrorTitle := "Error"
  const DeleteTitle := "Delete?"
  const OverwriteTitle := "Overwrite?"
  const WarningTitle := "Warning!"
  const UpdateTitle := "Update?"

  const ImproperText := "Improper dwg. no."

  const OverwriteText :=
    "Warning: You are about to overwrite a standard drawing\n"
    + "number used at Dekker. If overwritten, to retrieve the\n"
    + "original number edit the drawing number field and leave it\n"
    + "blank.  Press Enter and the original number will reappear.\n"
    + "This is true even if you close the program and reopen it."

  const PartWarningText :=
    "It looks like you are trying to enter a part no. that this\n"
    + "program would normally generate. Do you expect that the\n"
    + "drawing no. will update to be in sync with this part no.?\n"
    + "(e.g. dwg. no. 2020410 is in sync with pn 0300-2020-410.)\n"
    + "If so, you are taking the wrong approach.\n\n "
    + "Instead change the drawing number.  The part number,\n"
    + "assuming it is currenly in sync with the drawing mumber, will  \n"
    + "automatically update to be in sync with the new drawing number."

  /** The error shown for a renumbering too far ahead, naming the highest
      drawing number allowed. */
  function MaxText(maxIndex: nat): string {
    "The maximum allowable increase for a drawing number is 50.\n "
    + NatStr(IndexToNumber(maxIndex)) + " is the max in this case."
  }

  /** The record's five fields, each after its label; the drawing number
      is the text the cell held before the edit. */
  function DeleteLines(clicked: string, k: Row): seq<string> {
    ["dwg:      " + clicked, "ptno:     " + k.part, "descrip: " + k.descrip,
     "date:     " + k.date, "author:  " + k.author]
  }

  /** The delete confirmation: the labelled fields, one per line. */
  function DeleteText(clicked: string, k: Row): string {
    Join(DeleteLines(clicked, k), "\n")
  }

  /** The update confirmation: old and new text of the cell. */
  function UpdateText(clicked: string, value: string): string {
    "from: " + clicked + "\nto:     " + value
  }

  /** The dialog for a classified edit: refusals first (silent, error,
      exception), then Delete?, Overwrite?, Warning! and finally Update?. */
  function DialogFor(c: Column, e: Edit, clicked: string): Dialog {
    match e.outcome
    case DateRejected => Silent
    case Failed => Crash
    case MaxExceeded(m) => ErrorBox(MaxText(m))
    case Delete => Confirm(DeleteTitle, DeleteText(clicked, e.k))
    case Overwrite => Confirm(OverwriteTitle, OverwriteText)
    case PartWarning => Confirm(WarningTitle, PartWarningText)
    case _ => Confirm(UpdateTitle, UpdateText(clicked, Get(e.k, c)))
  }

  /** The dialog as the handler picks it: by comparing the edited cell's
      text with the marker strings before looking at the flags. The markers
      are only ever written into the drawing-number cell, but the test is
      made on whichever cell was edited. */
  function DialogAsWritten(c: Column, e: Edit, clicked: string): Dialog {
    if e.outcome == DateRejected then Silent
    else if e.outcome == Failed then Crash
    else
      var v := Get(e.k, c);
      if v == ImproperMarker || v == MaxMarker then
        if v == MaxMarker then
          // `maxAllowedIndex` is bound only by a too-far renumbering
          (if e.outcome.MaxExceeded? then ErrorBox(MaxText(e.outcome.maxIndex)) else Crash)
        else ErrorBox(ImproperText)
      else if v == DeleteMarker then Confirm(DeleteTitle, DeleteText(clicked, e.k))
      else if e.outcome == Overwrite then Confirm(OverwriteTitle, OverwriteText)
      else if e.outcome == PartWarning then Confirm(WarningTitle, PartWarningText)
      else Confirm(UpdateTitle, UpdateText(clicked, v))
  }

  /** The change written when the user confirms. */
  function ActionFor(c: Column, e: Edit, clicked: string, ctx: Context): Action {
    match e.outcome
    case Delete => DeleteRecord(clicked)
    case Restore(n) => RestoreNumber(clicked, NatStr(n))
    case Overwrite => OverwriteNumber(ctx.currentIndex, e.k.dwg)
    case Renumber(p) => RenumberRecord(clicked, IndexToNumber(p), p)
    case _ =>
      if c == Part then SetPart(e.k.dwg, e.k.part, e.k.descrip)
      else SetField(e.k.dwg, c, Get(e.k, c))
  }

  /** A change is attached exactly to a confirmation dialog. */
  function Respond(d: Dialog, c: Column, e: Edit, clicked: string, ctx: Context): (r: Response)
    ensures r.dialog == d
    ensures r.action.Some? <==> d.Confirm?
  {
    Response(d, if d.Confirm? then Some(ActionFor(c, e, clicked, ctx)) else None)
  }

  /** The response to an edit already classified. */
  function Handle(c: Column, e: Edit, clicked: string, ctx: Context): (r: Response)
    ensures r.action.Some? <==> r.dialog.Confirm?
  {
    Respond(DialogFor(c, e, clicked), c, e, clicked, ctx)
  }

  /** The whole handler: classify the edit, pick the dialog, and attach the
      change a confirmation would write. */
  function CellChanged(c: Column, row: Row, clicked: string, ctx: Context): (r: Response)
    ensures r.action.Some? <==> r.dialog.Confirm?
  {
    Handle(c, EditCell(c, row, clicked, ctx), clicked, ctx)
  }

  /** The handler with the dialog picked as the source picks it. */
  function CellChangedAsWritten(c: Column, row: Row, clicked: string, ctx: Context): (r: Response)
    ensures r.action.Some? <==> r.dialog.Confirm?
  {
    var e := EditCell(c, row, clicked, ctx);
    Respond(DialogAsWritten(c, e, clicked), c, e, clicked, ctx)
  }

  /* ---------------------------------------------------------- properties */

  /** The response by outcome: refusals carry no change, the delete
      confirmation is only ever the response to a delete, and every other
      outcome has its own title. */
  lemma HandleCases(c: Column, e: Edit, clicked: string, ctx: Context)
    ensures var r := Handle(c, e, clicked, ctx);
      && (e.outcome == DateRejected ==> r == Response(Silent, None))
      && (e.outcome.MaxExceeded? ==> r == Response(ErrorBox(MaxText(e.outcome.maxIndex)), None))
      && (e.outcome == Failed ==> r == Response(Crash, None))
      && (!(e.outcome == DateRejected || e.outcome.MaxExceeded? || e.outcome == Failed) ==> r.dialog.Confirm?)
      && (r.dialog.Confirm? && r.dialog.title == DeleteTitle <==> e.outcome == Delete)
      && (e.outcome == Delete ==> r == Response(Confirm(DeleteTitle, DeleteText(clicked, e.k)), Some(DeleteRecord(clicked))))
  {
    RefusalCases(c, e, clicked, ctx);
    DeleteCases(c, e, clicked, ctx);
  }

  /** Refusals carry no change; everything else is a confirmation. */
  lemma RefusalCases(c: Column, e: Edit, clicked: string, ctx: Context)
    ensures var r := Handle(c, e, clicked, ctx);
      && (e.outcome == DateRejected ==> r == Response(Silent, None))
      && (e.outcome.MaxExceeded? ==> r == Response(ErrorBox(MaxText(e.outcome.maxIndex)), None))
      && (e.outcome == Failed ==> r == Response(Crash, None))
      && (!(e.outcome == DateRejected || e.outcome.MaxExceeded? || e.outcome == Failed) ==> r.dialog.Confirm?)
  {
  }

  /** The Delete? title belongs to the delete outcome alone. */
  lemma DeleteCases(c: Column, e: Edit, clicked: string, ctx: Context)
    ensures var r := Handle(c, e, clicked, ctx);
      && (r.dialog.Confirm? && r.dialog.title == DeleteTitle <==> e.outcome == Delete)
      && (e.outcome == Delete ==> r == Response(Confirm(DeleteTitle, DeleteText(clicked, e.k)), Some(DeleteRecord(clicked))))
  {
    assert DeleteTitle != OverwriteTitle && DeleteTitle != WarningTitle && DeleteTitle != UpdateTitle;
  }

  /** Refused edits write nothing: a rejected date is ignored silently, a
      renumbering too far ahead shows an error naming the highest drawing
      number allowed, and a failed description lookup raises. Every other
      edit asks for confirmation. */
  lemma RefusalsWriteNothing(c: Column, row: Row, clicked: string, ctx: Context)
    ensures var e, r := EditCell(c, row, clicked, ctx), CellChanged(c, row, clicked, ctx);
      && (e.outcome == DateRejected ==> r == Response(Silent, None))
      && (e.outcome.MaxExceeded? ==> r == Response(ErrorBox(MaxText(ctx.lastIndex + MaxIncrease)), None))
      && (e.outcome == Failed ==> r == Response(Crash, None))
      && (!(e.outcome == DateRejected || e.outcome.MaxExceeded? || e.outcome == Failed) ==> r.dialog.Confirm?)
  {
    var e := EditCell(c, row, clicked, ctx);
    HandleCases(c, e, clicked, ctx);
    EditCellOutcomes(c, row, clicked, ctx);
    if c == Dwg {
      RenumberIffGenerated(row, clicked, ctx);
    }
  }

  /** The delete confirmation is shown exactly for a delete keyword typed
      into the drawing-number cell, and confirming it deletes the record
      that was clicked. */
  lemma DeleteConfirmIff(c: Column, row: Row, clicked: string, ctx: Context)
    ensures var r := CellChanged(c, row, clicked, ctx);
      (r.dialog.Confirm? && r.dialog.title == DeleteTitle) <==> (c == Dwg && Lower(row.dwg) in DeleteWords)
    ensures var r := CellChanged(c, row, clicked, ctx);
      r.dialog.Confirm? && r.dialog.title == DeleteTitle ==> r.action == Some(DeleteRecord(clicked))
  {
    HandleCases(c, EditCell(c, row, clicked, ctx), clicked, ctx);
    if c == Dwg {
      DeleteIffKeyword(row, clicked, ctx);
    }
  }

  lemma NoNewline(head: string, s: string)
    requires '\n' !in head && '\n' !in s
    ensures '\n' !in head + s
  {
  }

  /** The delete confirmation lists the record's five fields, one per line,
      each after its label: split at the newlines it gives them back. */
  lemma DeleteListsFields(row: Row, clicked: string, ctx: Context)
    requires Lower(row.dwg) in DeleteWords
    requires '\n' !in clicked && '\n' !in row.part && '\n' !in row.descrip
    requires '\n' !in row.date && '\n' !in row.author
    ensures var r := CellChanged(Dwg, row, clicked, ctx);
      && r.dialog.Confirm?
      && r.dialog.title == DeleteTitle
      && Split(r.dialog.text, "\n")
         == ["dwg:      " + clicked, "ptno:     " + row.part, "descrip: " + row.descrip,
             "date:     " + row.date, "author:  " + row.author]
  {
    DeleteIffKeyword(row, clicked, ctx);
    var e := EditCell(Dwg, row, clicked, ctx);
    HandleCases(Dwg, e, clicked, ctx);
    assert Get(e.k, Part) == row.part && Get(e.k, Descrip) == row.descrip;
    assert Get(e.k, Date) == row.date && Get(e.k, Author) == row.author;
    DeleteTextLines(clicked, e.k);
  }

  lemma DeleteTextLines(clicked: string, k: Row)
    requires '\n' !in clicked && '\n' !in k.part && '\n' !in k.descrip
    requires '\n' !in k.date && '\n' !in k.author
    ensures Split(DeleteText(clicked, k), "\n")
         == ["dwg:      " + clicked, "ptno:     " + k.part, "descrip: " + k.descrip,
             "date:     " + k.date, "author:  " + k.author]
  {
    var lines := DeleteLines(clicked, k);
    NoNewline("dwg:      ", clicked);
    NoNewline("ptno:     ", k.part);
    NoNewline("descrip: ", k.descrip);
    NoNewline("date:     ", k.date);
    NoNewline("author:  ", k.author);
    SplitJoin(lines, '\n');
  }

  /** The update confirmation is two lines, the old text and the new. */
  lemma UpdateTextLines(clicked: string, value: string)
    requires '\n' !in clicked && '\n' !in value
    ensures Split(UpdateText(clicked, value), "\n") == ["from: " + clicked, "to:     " + value]
  {
    NoNewline("from: ", clicked);
    NoNewline("to:     ", value);
    assert UpdateText(clicked, value) == ("from: " + clicked) + ['\n'] + ("to:     " + value);
    SplitAt("from: " + clicked, '\n', "to:     " + value);
    SplitNone("to:     " + value, '\n');
  }

  /** A renumbering within range asks to update from the old text to the
      typed number and, confirmed, gives the record the typed number's index
      and the drawing number shown for it. */
  lemma RenumberConfirm(row: Row, clicked: string, ctx: Context)
    requires EditCell(Dwg, row, clicked, ctx).outcome.Renumber?
    ensures var p := ProposedIndex(row.dwg);
      CellChanged(Dwg, row, clicked, ctx)
        == Response(Confirm(UpdateTitle, UpdateText(clicked, row.dwg)),
                    Some(RenumberRecord(clicked, IndexToNumber(p), p)))
  {
    RenumberIffGenerated(row, clicked, ctx);
    TextNormalised(Dwg, row, clicked, ctx);
    CaseKeepsDigits(row.dwg);
  }

  /** Overwriting asks with the overwrite warning and, confirmed, replaces
      the drawing-number text of the record at its current index; the index
      itself is not touched. */
  lemma OverwriteConfirm(row: Row, clicked: string, ctx: Context)
    requires EditCell(Dwg, row, clicked, ctx).outcome == Overwrite
    ensures CellChanged(Dwg, row, clicked, ctx)
         == Response(Confirm(OverwriteTitle, OverwriteText), Some(OverwriteNumber(ctx.currentIndex, Upper(row.dwg))))
  {
    OverwriteOtherwise(row, clicked, ctx);
  }

  /** Erasing the drawing number asks to update to the generated number
      and, confirmed, stores that number for the clicked record. */
  lemma RestoreConfirm(row: Row, clicked: string, ctx: Context)
    requires IsBlank(row.dwg)
    ensures var n := NatStr(IndexToNumber(ctx.currentIndex));
      CellChanged(Dwg, row, clicked, ctx)
        == Response(Confirm(UpdateTitle, UpdateText(clicked, n)), Some(RestoreNumber(clicked, n)))
  {
    RestoreIffBlank(row, clicked, ctx);
  }

  /** A part number that would desynchronise the drawing number is warned
      about; confirmed, it is stored as typed, with the description. */
  lemma PartWarningConfirm(row: Row, clicked: string, ctx: Context)
    requires EditCell(Part, row, clicked, ctx).outcome == PartWarning
    ensures var e := EditCell(Part, row, clicked, ctx);
      CellChanged(Part, row, clicked, ctx)
        == Response(Confirm(WarningTitle, PartWarningText), Some(SetPart(row.dwg, TypedPart(row), e.k.descrip)))
  {
    var e := EditCell(Part, row, clicked, ctx);
    PartWarningIff(row, clicked, ctx);
    WarningResponse(e, clicked, ctx);
    PartEditKeepsNumber(row, clicked, ctx);
  }

  lemma PartEditKeepsNumber(row: Row, clicked: string, ctx: Context)
    ensures EditCell(Part, row, clicked, ctx).k.dwg == row.dwg
  {
    assert Get(EditCell(Part, row, clicked, ctx).k, Dwg) == Get(row, Dwg);
  }

  lemma WarningResponse(e: Edit, clicked: string, ctx: Context)
    requires e.outcome == PartWarning
    ensures Handle(Part, e, clicked, ctx)
      == Response(Confirm(WarningTitle, PartWarningText), Some(SetPart(e.k.dwg, e.k.part, e.k.descrip)))
  {
  }

  /* ------------------------------------- markers compared on any column */

  /** The marker texts the dialog choice looks for. */
  predicate IsMarker(v: string) {
    v == DeleteMarker || v == MaxMarker || v == ImproperMarker
  }

  /** Markers start with a lower-case letter and hold no dash. */
  lemma MarkerShape(v: string)
    requires IsMarker(v)
    ensures |v| > 0 && 'a' <= v[0] <= 'z'
    ensures '-' !in v
  {
  }

  /** Text starting with anything but a lower-case letter is no marker. */
  lemma NotMarkerByFirst(v: string)
    requires |v| == 0 || !('a' <= v[0] <= 'z')
    ensures !IsMarker(v)
  {
    if IsMarker(v) {
      MarkerShape(v);
    }
  }

  /** Text holding a dash is no marker. */
  lemma NotMarkerByDash(v: string, i: nat)
    requires i < |v| && v[i] == '-'
    ensures !IsMarker(v)
  {
    if IsMarker(v) {
      MarkerShape(v);
    }
  }

  /** Upper-cased text is no marker. */
  lemma UpperNotMarker(s: string)
    ensures !IsMarker(Upper(s))
  {
    NotMarkerByFirst(Upper(s));
  }

  /** When the edited cell holds no marker (or the edit was refused before
      it is looked at), the two ways of choosing the dialog agree, outside
      the two outcomes that write a marker. */
  lemma AgreeOnEdit(c: Column, e: Edit, clicked: string)
    requires e.outcome == DateRejected || e.outcome == Failed || !IsMarker(Get(e.k, c))
    requires !e.outcome.Delete? && !e.outcome.MaxExceeded?
    ensures DialogAsWritten(c, e, clicked) == DialogFor(c, e, clicked)
  {
  }

  /** A delete or a too-far renumbering writes its marker into the
      drawing-number cell, and there the two choices agree. */
  lemma AgreeOnMarker(e: Edit, clicked: string)
    requires (e.outcome == Delete && e.k.dwg == DeleteMarker)
          || (e.outcome.MaxExceeded? && e.k.dwg == MaxMarker)
    ensures DialogAsWritten(Dwg, e, clicked) == DialogFor(Dwg, e, clicked)
  {
  }

  /** Column 0 writes a marker exactly for a delete or a too-far
      renumbering; otherwise it leaves a digit text or upper-cased text. */
  lemma NumberCellMarkers(row: Row, clicked: string, ctx: Context)
    ensures var e := EditCell(Dwg, row, clicked, ctx);
      && (e.outcome == Delete ==> e.k.dwg == DeleteMarker)
      && (e.outcome.MaxExceeded? ==> e.k.dwg == MaxMarker)
      && (!e.outcome.Delete? && !e.outcome.MaxExceeded? ==> !IsMarker(e.k.dwg))
  {
    EditNumberCell(row, clicked, ctx);
    var e := EditCell(Dwg, row, clicked, ctx);
    UpperNotMarker(row.dwg);
    if e.outcome.Restore? {
      NotMarkerByFirst(e.k.dwg);
    }
  }

  /** Autocompletion always leaves a dash in the part number. */
  lemma AutocompleteHasDash(k: Row, clicked: string, ctx: Context)
    requires PartRule(k, clicked, ctx).outcome == PartAutocomplete
    ensures !IsMarker(PartRule(k, clicked, ctx).k.part)
  {
    PartRuleShape(k, clicked, ctx);
    var dg := CurrentNumber(ctx);
    var v := PartRule(k, clicked, ctx).k.part;
    if ThreePieces(clicked) && v == Pieces(clicked)[0] + "-" + (SliceTo(dg, 4) + "-" + SliceFrom(dg, 4)) {
      DashAfter(Pieces(clicked)[0], SliceTo(dg, 4) + "-" + SliceFrom(dg, 4));
      NotMarkerByDash(v, |Pieces(clicked)[0]|);
    } else if |k.part| == 5 && k.part[4] == '-' && v == k.part + SliceTo(dg, 4) + "-" + SliceFrom(dg, 4) {
      NotMarkerByDash(v, 4);
    } else {
      NotMarkerByDash(v, 9);
    }
  }

  lemma DashAfter(a: string, b: string)
    ensures (a + "-" + b)[|a|] == '-'
  {
  }

  /** Column 1 writes no marker into the part-number cell. */
  lemma PartCellNoMarker(row: Row, clicked: string, ctx: Context)
    ensures var e := EditCell(Part, row, clicked, ctx);
      e.outcome != Failed ==> !IsMarker(e.k.part)
  {
    EditPartCell(row, clicked, ctx);
    var k := row.(part := TypedPart(row));
    var e0 := PartRule(k, clicked, ctx);
    DescripRuleCases(e0, ctx);
    PartRuleShape(k, clicked, ctx);
    if e0.outcome == PartAutocomplete {
      AutocompleteHasDash(k, clicked, ctx);
    } else {
      TypedPartNoMarker(row);
    }
    assert EditCell(Part, row, clicked, ctx).k.part == e0.k.part;
  }

  lemma TypedPartNoMarker(row: Row)
    ensures !IsMarker(TypedPart(row))
  {
    var w := TypedPart(row);
    assert |w| == 0 || w[0] == UpperChar(row.part[0]);
    NotMarkerByFirst(w);
  }

  /** An accepted date starts with a digit, so it is no marker. */
  lemma DateCellNoMarker(row: Row, clicked: string, ctx: Context)
    ensures var e := EditCell(Date, row, clicked, ctx);
      e.outcome != DateRejected ==> !IsMarker(e.k.date)
  {
    var e := EditCell(Date, row, clicked, ctx);
    if e.outcome != DateRejected {
      var d := Upper(row.date);
      assert NormaliseDate(d).Some? && e.k.date == NormaliseDate(d).value;
      AcceptedDateShape(d);
      assert e.k.date[..2][0] == e.k.date[0];
      NotMarkerByFirst(e.k.date);
    }
  }

  /** The author cell holds the lower-cased text. */
  lemma AuthorCellLowered(row: Row, clicked: string, ctx: Context)
    ensures EditCell(Author, row, clicked, ctx).k.author == Lower(row.author)
    ensures EditCell(Author, row, clicked, ctx).outcome == Update
  {
    TextNormalised(Author, row, clicked, ctx);
  }

  /** The dialog chosen as written is the intended one for every edit
      except one of the author column whose lower-cased text is a marker. */
  lemma AsWrittenAgrees(c: Column, row: Row, clicked: string, ctx: Context)
    requires c != Author || !IsMarker(Lower(row.author))
    ensures CellChangedAsWritten(c, row, clicked, ctx) == CellChanged(c, row, clicked, ctx)
  {
    var e := EditCell(c, row, clicked, ctx);
    match c
    case Dwg =>
      NumberCellMarkers(row, clicked, ctx);
      if e.outcome.Delete? || e.outcome.MaxExceeded? {
        AgreeOnMarker(e, clicked);
      } else {
        AgreeOnEdit(c, e, clicked);
      }
    case Part =>
      PartCellNoMarker(row, clicked, ctx);
      AgreeOnEdit(c, e, clicked);
    case Descrip =>
      TextNormalised(c, row, clicked, ctx);
      NotMarkerByFirst(e.k.descrip);
      AgreeOnEdit(c, e, clicked);
    case Date =>
      DateCellNoMarker(row, clicked, ctx);
      AgreeOnEdit(c, e, clicked);
    case Author =>
      AuthorCellLowered(row, clicked, ctx);
      AgreeOnEdit(c, e, clicked);
  }

  /** ... and for that author edit the two differ: as written, the author
      text "delete" brings up the delete confirmation (whose OK only sets
      the author), "abort0" an error that discards the edit, and
      "abort0_maxexceeded" an exception; the intended handler asks to
      update the author like any other text. */
  lemma AuthorMarkerMisprompt(row: Row, clicked: string, ctx: Context)
    requires IsMarker(Lower(row.author))
    ensures var a, r := CellChangedAsWritten(Author, row, clicked, ctx), CellChanged(Author, row, clicked, ctx);
      && a != r
      && r == Response(Confirm(UpdateTitle, UpdateText(clicked, Lower(row.author))),
                       Some(SetField(row.dwg, Author, Lower(row.author))))
      && (Lower(row.author) == DeleteMarker ==>
            a == Response(Confirm(DeleteTitle, DeleteText(clicked, row.(author := DeleteMarker))),
                          Some(SetField(row.dwg, Author, DeleteMarker))))
      && (Lower(row.author) == ImproperMarker ==> a == Response(ErrorBox(ImproperText), None))
      && (Lower(row.author) == MaxMarker ==> a == Response(Crash, None))
  {
    AuthorCellLowered(row, clicked, ctx);
    var e := EditCell(Author, row, clicked, ctx);
    assert e.k == row.(author := Lower(row.author));
    assert DeleteTitle != UpdateTitle;
  }
}
