/** The drawing log's cell-edit classifier (`cell_changed`): given the
    column that was edited, the row as it now reads, the cell's previous
    text and a few values read from the database, it normalises the typed
    value and decides what the edit means. What the user is then asked,
    and what would be written, is in module Prompts. */
module CellEdit {
  import opened Results
  import opened Text
  import opened Digits
  import opened Numbering
  import opened Dates

  /** The five columns of the drawing table, in display order 0-4. */
  datatype Column = Dwg | Part | Descrip | Date | Author

  /** One table row: drawing number, part number, description, date, author. */
  datatype Row = Row(dwg: string, part: string, descrip: string, date: string, author: string)

  function Get(k: Row, c: Column): string {
    match c
    case Dwg => k.dwg
    case Part => k.part
    case Descrip => k.descrip
    case Date => k.date
    case Author => k.author
  }

  function Put(k: Row, c: Column, v: string): (r: Row)
    ensures Get(r, c) == v
    ensures forall d :: d != c ==> Get(r, d) == Get(k, d)
  {
    match c
    case Dwg => k.(dwg := v)
    case Part => k.(part := v)
    case Descrip => k.(descrip := v)
    case Date => k.(date := v)
    case Author => k.(author := v)
  }

  /** Values read from the database before an edit is classified: the
      highest index in the table, the index of the edited record, that
      record's stored description, and the description to suggest for each
      part-number prefix. */
  datatype Context = Context(
    lastIndex: nat,
    currentIndex: nat,
    currentDescrip: string,
    descripOfPrefix: map<int, string>)

  /** What an edit means. */
  datatype Outcome =
    | Delete                      // a delete keyword in the drawing-number cell
    | Restore(number: nat)        // drawing number erased: bring back the generated one
    | Renumber(newIndex: nat)     // a generated-looking number: move the record to this index
    | MaxExceeded(maxIndex: nat)  // that index lies too far past the last one
    | Overwrite                   // any other drawing number: replace the text only
    | DateRejected                // a date that does not parse: silently ignored
    | PartWarning                 // a part number that would desynchronise the drawing number
    | PartAutocomplete            // a part number completed from the drawing number
    | Update                      // a plain change of the cell
    | Failed                      // `int()` raised while looking up a description

  /** The row as the classifier leaves it (the `k` dictionary, including the
      marker texts it writes into the drawing-number cell) and the outcome. */
  datatype Edit = Edit(k: Row, outcome: Outcome)

  const DeleteWords: set<string> := {"delete", "remove", "del", "rm"}

  /** Marker the classifier writes into the drawing-number cell for a delete. */
  const DeleteMarker := "delete"

  /** Marker for a renumbering beyond the allowed maximum. */
  const MaxMarker := "abort0_maxexceeded"

  /** Marker for an improper drawing number; nothing writes it, but the
      prompt stage still tests for it. */
  const ImproperMarker := "abort0"

  /** How far past the last index a renumbering may reach. */
  const MaxIncrease := 50

  const PartWidth := 30
  const DescripWidth := 40

  /** Columns 0-3 are upper-cased, the author column lower-cased. */
  function CaseOf(c: Column, v: string): string {
    if c == Author then Lower(v) else Upper(v)
  }

  /** A typed drawing number the program could have generated: all digits,
      starting "20", at least seven long. */
  predicate LooksGenerated(w: string) {
    IsDigitText(w) && SliceTo(w, 2) == "20" && |w| >= 7
  }

  /** The drawing number the edited record is displayed under. */
  function CurrentNumber(ctx: Context): string {
    NatStr(IndexToNumber(ctx.currentIndex))
  }

  /** Column 0, on the upper-cased row. */
  function NumberRule(k: Row, ctx: Context): (e: Edit)
    ensures e.k == k.(dwg := e.k.dwg)
    ensures e.outcome.Delete? || e.outcome.Restore? || e.outcome.Renumber?
         || e.outcome.MaxExceeded? || e.outcome.Overwrite?
  {
    var w := k.dwg;
    if Lower(w) in DeleteWords then Edit(k.(dwg := DeleteMarker), Delete)
    else if LooksGenerated(w) then
      var p := ProposedIndex(w);
      var most := ctx.lastIndex + MaxIncrease;
      if p > most then Edit(k.(dwg := MaxMarker), MaxExceeded(most))
      else Edit(k, Renumber(p))
    else if IsBlank(w) then
      var n := IndexToNumber(ctx.currentIndex);
      Edit(k.(dwg := NatStr(n)), Restore(n))
    else Edit(k, Overwrite)
  }

  /** Column 1, on the row whose part number is upper-cased and cut to 30:
      the synchronisation rules between part and drawing number. */
  function PartRule(k: Row, clicked: string, ctx: Context): (e: Edit)
    ensures e.k == k.(part := e.k.part)
    ensures e.outcome in {Update, PartWarning, PartAutocomplete}
  {
    var w := k.part;
    var dg := CurrentNumber(ctx);
    var year, counter := SliceTo(dg, 4), SliceFrom(dg, 4);
    if ThreePieces(w) && Pieces(w)[1] == year && Pieces(w)[2] == counter then Edit(k, Update)
    else if ThreePieces(w) && Pieces(w)[1] == year then Edit(k, PartWarning)
    else if IsBlank(w) && ThreePieces(clicked) then
      Edit(k.(part := Pieces(clicked)[0] + "-" + year + "-" + counter), PartAutocomplete)
    else if |w| == 5 && w[4] == '-' then
      Edit(k.(part := w + year + "-" + counter), PartAutocomplete)
    else if |w| == 10 && w[9] == '-' && w[5..9] == year then
      Edit(k.(part := w + SliceFrom(k.dwg, 4)), PartAutocomplete)
    else Edit(k, Update)
  }

  /** The description suggested for a part number's prefix, when the
      record has none yet. */
  function DescripRule(e: Edit, ctx: Context): (r: Edit)
    ensures r.k == e.k.(descrip := r.k.descrip)
    ensures r.outcome == e.outcome || r.outcome == Failed
  {
    var p := e.k.part;
    if IsBlank(ctx.currentDescrip) && |p| >= 13 && p[4] == '-' then
      match PyInt(SliceTo(p, 4))
      case None => Edit(e.k, Failed)
      case Some(n) =>
        if n in ctx.descripOfPrefix then Edit(e.k.(descrip := ctx.descripOfPrefix[n]), e.outcome)
        else e
    else e
  }

  /** The classifier: `row` is the row as it reads after the user's edit of
      column `c`, `clicked` the text the cell held before. */
  function EditCell(c: Column, row: Row, clicked: string, ctx: Context): (e: Edit)
    ensures forall d :: d != c && !(c == Part && d == Descrip) ==> Get(e.k, d) == Get(row, d)
  {
    var k := Put(row, c, CaseOf(c, Get(row, c)));
    match c
    case Dwg => NumberRule(k, ctx)
    case Part => DescripRule(PartRule(k.(part := SliceTo(k.part, PartWidth)), clicked, ctx), ctx)
    case Descrip => Edit(k.(descrip := SliceTo(k.descrip, DescripWidth)), Update)
    case Date =>
      (match NormaliseDate(k.date)
       case None => Edit(k, DateRejected)
       case Some(d) => Edit(k.(date := d), Update))
    case Author => Edit(k.(author := Lower(k.author)), Update)
  }

  /** Each outcome belongs to one column: the drawing-number outcomes to
      column 0, date rejection to column 3, the part-number outcomes to
      column 1. */
  lemma EditCellOutcomes(c: Column, row: Row, clicked: string, ctx: Context)
    ensures var e := EditCell(c, row, clicked, ctx);
      c != Dwg ==> !(e.outcome.Delete? || e.outcome.Restore? || e.outcome.Renumber?
                     || e.outcome.MaxExceeded? || e.outcome.Overwrite?)
    ensures var e := EditCell(c, row, clicked, ctx);
      e.outcome.DateRejected? ==> c == Date
    ensures var e := EditCell(c, row, clicked, ctx);
      e.outcome.PartWarning? || e.outcome.PartAutocomplete? || e.outcome.Failed? ==> c == Part
  {
  }

  /* ------------------------------------------- drawing-number column */

  lemma CaseKeepsDigits(s: string)
    requires AllDigits(s)
    ensures Upper(s) == s && Lower(s) == s
  {
    assert forall i :: 0 <= i < |s| ==> IsDigit(s[i]);
  }

  /** Upper-casing cannot turn a non-digit into a digit. */
  lemma LooksGeneratedUpper(s: string)
    ensures LooksGenerated(Upper(s)) <==> LooksGenerated(s)
  {
    if AllDigits(Upper(s)) {
      assert forall i :: 0 <= i < |s| ==> IsDigit(Upper(s)[i]) && IsDigit(s[i]);
    }
    if AllDigits(s) {
      CaseKeepsDigits(s);
    }
  }

  /** Delete keywords are letters and not blank. */
  lemma KeywordVisible(w: string)
    requires Lower(w) in DeleteWords
    ensures !IsBlank(w) && !AllDigits(w)
  {
    assert Lower(w)[0] == 'd' || Lower(w)[0] == 'r';
    assert !IsSpace(w[0]) && !IsDigit(w[0]);
    BlankIffAllSpace(w);
  }

  lemma BlankNotGenerated(w: string)
    requires IsBlank(w)
    ensures !LooksGenerated(w)
  {
    BlankIffAllSpace(w);
    if |w| > 0 {
      assert IsSpace(w[0]) && !IsDigit(w[0]);
    }
  }

  /** The drawing-number column is classified on the upper-cased text. */
  lemma EditNumberCell(row: Row, clicked: string, ctx: Context)
    ensures EditCell(Dwg, row, clicked, ctx) == NumberRule(row.(dwg := Upper(row.dwg)), ctx)
  {
  }

  /** How column 0's rule picks its outcome from the (upper-cased) text. */
  lemma NumberRuleCases(k: Row, ctx: Context)
    ensures var w, e := k.dwg, NumberRule(k, ctx);
      && (e.outcome == Delete <==> Lower(w) in DeleteWords)
      && (e.outcome.Renumber? || e.outcome.MaxExceeded? <==> Lower(w) !in DeleteWords && LooksGenerated(w))
      && (e.outcome.Restore? <==> Lower(w) !in DeleteWords && !LooksGenerated(w) && IsBlank(w))
      && (e.outcome == Overwrite <==> Lower(w) !in DeleteWords && !LooksGenerated(w) && !IsBlank(w))
  {
  }

  /** Case and blankness tests give the same answers on the upper-cased text. */
  lemma UpperTests(w: string)
    ensures Lower(Upper(w)) in DeleteWords <==> Lower(w) in DeleteWords
    ensures LooksGenerated(Upper(w)) <==> LooksGenerated(w)
    ensures IsBlank(Upper(w)) <==> IsBlank(w)
  {
    UpperBlank(w);
    LowerOfUpper(w);
    LooksGeneratedUpper(w);
  }

  /** The delete keywords are recognised in any letter case, and only they
      delete the record. */
  lemma DeleteIffKeyword(row: Row, clicked: string, ctx: Context)
    ensures EditCell(Dwg, row, clicked, ctx).outcome == Delete <==> Lower(row.dwg) in DeleteWords
  {
    LowerOfUpper(row.dwg);
  }

  /** A non-keyword that looks like a generated number renumbers the
      record, to the index the typed text stands for, unless that index is
      more than 50 past the last one. */
  lemma RenumberIffGenerated(row: Row, clicked: string, ctx: Context)
    ensures var o := EditCell(Dwg, row, clicked, ctx).outcome;
      (o.Renumber? || o.MaxExceeded?) <==> (Lower(row.dwg) !in DeleteWords && LooksGenerated(row.dwg))
    ensures var o := EditCell(Dwg, row, clicked, ctx).outcome;
      o.Renumber? ==> LooksGenerated(row.dwg)
                      && o.newIndex == ProposedIndex(row.dwg) && o.newIndex <= ctx.lastIndex + MaxIncrease
    ensures var o := EditCell(Dwg, row, clicked, ctx).outcome;
      o.MaxExceeded? ==> LooksGenerated(row.dwg)
                         && o.maxIndex == ctx.lastIndex + MaxIncrease && ProposedIndex(row.dwg) > o.maxIndex
  {
    LowerOfUpper(row.dwg);
    LooksGeneratedUpper(row.dwg);
    if AllDigits(row.dwg) {
      CaseKeepsDigits(row.dwg);
    }
  }

  /** A renumbered seven-digit drawing number is displayed again exactly as
      typed. */
  lemma RenumberShowsTyped(row: Row, clicked: string, ctx: Context)
    requires EditCell(Dwg, row, clicked, ctx).outcome.Renumber? && |row.dwg| == 7
    ensures IndexToNumber(EditCell(Dwg, row, clicked, ctx).outcome.newIndex) == ParseDigits(row.dwg)
  {
    RenumberIffGenerated(row, clicked, ctx);
    var w := row.dwg;
    assert w[0] == '2' by {
      assert SliceTo(w, 2)[0] == w[0];
    }
    assert Canonical(w);
    RenumberRoundTrip(w);
  }

  /** Erasing the drawing number, and only that, restores the number the
      record's index is displayed under. */
  lemma RestoreIffBlank(row: Row, clicked: string, ctx: Context)
    ensures EditCell(Dwg, row, clicked, ctx).outcome.Restore? <==> IsBlank(row.dwg)
    ensures var e := EditCell(Dwg, row, clicked, ctx);
      e.outcome.Restore? ==> e.outcome.number == IndexToNumber(ctx.currentIndex) && e.k.dwg == NatStr(e.outcome.number)
  {
    EditNumberCell(row, clicked, ctx);
    NumberRuleCases(row.(dwg := Upper(row.dwg)), ctx);
    UpperTests(row.dwg);
    if IsBlank(row.dwg) {
      BlankNotGenerated(row.dwg);
      if Lower(row.dwg) in DeleteWords {
        KeywordVisible(row.dwg);
      }
    }
  }

  /** Any other text overwrites the drawing number as typed (upper-cased). */
  lemma OverwriteOtherwise(row: Row, clicked: string, ctx: Context)
    ensures EditCell(Dwg, row, clicked, ctx).outcome == Overwrite
        <==> !IsBlank(row.dwg) && Lower(row.dwg) !in DeleteWords && !LooksGenerated(row.dwg)
    ensures var e := EditCell(Dwg, row, clicked, ctx);
      e.outcome == Overwrite ==> e.k.dwg == Upper(row.dwg)
  {
    EditNumberCell(row, clicked, ctx);
    NumberRuleCases(row.(dwg := Upper(row.dwg)), ctx);
    UpperTests(row.dwg);
  }

  /** The restored number, typed in again, renumbers the record to the
      index it already has. */
  lemma RestoreThenRetype(row: Row, clicked: string, ctx: Context)
    requires 100000000 <= ctx.currentIndex < 1000000000
    requires SliceTo(NatStr(ctx.currentIndex), 2) == "20"
    requires ctx.currentIndex <= ctx.lastIndex + MaxIncrease
    requires IsBlank(row.dwg)
    ensures var e := EditCell(Dwg, row, clicked, ctx);
      EditCell(Dwg, e.k, clicked, ctx).outcome == Renumber(ctx.currentIndex)
  {
    RestoreIffBlank(row, clicked, ctx);
    var e := EditCell(Dwg, row, clicked, ctx);
    RestoredNumber(ctx.currentIndex);
    RenumberIffGenerated(e.k, clicked, ctx);
  }

  /** The number a nine-digit index starting "20" is displayed under looks
      generated, is no keyword, and is renumbered back to that index. */
  lemma RestoredNumber(index: nat)
    requires 100000000 <= index < 1000000000
    requires SliceTo(NatStr(index), 2) == "20"
    ensures var r := NatStr(IndexToNumber(index));
      LooksGenerated(r) && Lower(r) !in DeleteWords && ProposedIndex(r) == index
  {
    var t := NatStr(index);
    var r := NatStr(IndexToNumber(index));
    NumberIndexRoundTrip(index);
    NineDigits(index);
    IndexToNumberText(index);
    assert r[..2] == t[..2];
    CaseKeepsDigits(r);
    assert LooksGenerated(r);
    if Lower(r) in DeleteWords {
      KeywordVisible(r);
    }
  }

  /* ---------------------------------------------------- part-number column */

  /** The typed part number as the rules see it: upper-cased, cut to 30. */
  function TypedPart(row: Row): (w: string)
    ensures |w| == if |row.part| < PartWidth then |row.part| else PartWidth
    ensures forall i :: 0 <= i < |w| ==> w[i] == UpperChar(row.part[i])
  {
    SliceTo(Upper(row.part), PartWidth)
  }

  /** The description lookup raises: a record without description, a part
      number long enough with a dash at position 4, and a first four
      characters `int()` refuses. */
  predicate LookupFails(p: string, ctx: Context) {
    IsBlank(ctx.currentDescrip) && |p| >= 13 && p[4] == '-' && PyInt(SliceTo(p, 4)).None?
  }

  lemma EditPartCell(row: Row, clicked: string, ctx: Context)
    ensures EditCell(Part, row, clicked, ctx)
         == DescripRule(PartRule(row.(part := TypedPart(row)), clicked, ctx), ctx)
  {
  }

  lemma DescripRuleCases(e: Edit, ctx: Context)
    ensures DescripRule(e, ctx).k.part == e.k.part
    ensures DescripRule(e, ctx).outcome == if LookupFails(e.k.part, ctx) then Failed else e.outcome
  {
  }

  /** A part number in step with the record's drawing number is a plain
      update, stored as typed (unless the description lookup raises). */
  lemma SyncedPartUpdates(row: Row, clicked: string, ctx: Context)
    requires Synced(TypedPart(row), CurrentNumber(ctx))
    ensures var e := EditCell(Part, row, clicked, ctx);
      && e.k.part == TypedPart(row)
      && e.outcome == if LookupFails(TypedPart(row), ctx) then Failed else Update
  {
    EditPartCell(row, clicked, ctx);
    DescripRuleCases(PartRule(row.(part := TypedPart(row)), clicked, ctx), ctx);
  }

  /** The warning is given exactly for a three-piece part number carrying
      the record's year but another counter: such a part number would not
      move the drawing number along with it. */
  lemma PartWarningIff(row: Row, clicked: string, ctx: Context)
    ensures var e, w, dg := EditCell(Part, row, clicked, ctx), TypedPart(row), CurrentNumber(ctx);
      e.outcome == PartWarning <==>
        (ThreePieces(w) && Pieces(w)[1] == SliceTo(dg, 4) && Pieces(w)[2] != SliceFrom(dg, 4)
         && !LookupFails(w, ctx))
    ensures var e := EditCell(Part, row, clicked, ctx);
      e.outcome == PartWarning ==> e.k.part == TypedPart(row)
  {
    var k := row.(part := TypedPart(row));
    EditPartCell(row, clicked, ctx);
    PartRuleWarning(k, clicked, ctx);
    DescripRuleCases(PartRule(k, clicked, ctx), ctx);
  }

  /** Column 1's own rule warns exactly for a three-piece part number with
      the record's year and another counter, and leaves the row alone then. */
  lemma PartRuleWarning(k: Row, clicked: string, ctx: Context)
    ensures var e, w, dg := PartRule(k, clicked, ctx), k.part, CurrentNumber(ctx);
      e.outcome == PartWarning <==>
        (ThreePieces(w) && Pieces(w)[1] == SliceTo(dg, 4) && Pieces(w)[2] != SliceFrom(dg, 4))
    ensures var e := PartRule(k, clicked, ctx);
      e.outcome == PartWarning ==> e.k == k
  {
  }

  /** The drawing number of an index from 1000 on has more than four digits. */
  lemma CurrentNumberShape(ctx: Context)
    requires ctx.currentIndex >= 1000
    ensures AllDigits(CurrentNumber(ctx)) && |CurrentNumber(ctx)| >= 7
  {
    IndexToNumberText(ctx.currentIndex);
    NatStrLengthAtLeast(ctx.currentIndex, 4);
    assert Pow10(3) == 1000;
  }

  lemma BlankPrefix(s: string, n: int)
    requires IsBlank(s)
    ensures IsBlank(SliceTo(s, n))
  {
    BlankIffAllSpace(s);
    BlankIffAllSpace(SliceTo(s, n));
  }

  lemma BlankHasNoPieces(w: string)
    requires IsBlank(w)
    ensures !ThreePieces(w)
  {
    BlankIffAllSpace(w);
    assert forall i :: 0 <= i < |w| ==> IsSpace(w[i]) && w[i] != '-';
  }

  lemma PartRuleRefill(k: Row, clicked: string, ctx: Context)
    requires IsBlank(k.part) && ThreePieces(clicked)
    ensures var dg := CurrentNumber(ctx);
      PartRule(k, clicked, ctx)
        == Edit(k.(part := Pieces(clicked)[0] + "-" + SliceTo(dg, 4) + "-" + SliceFrom(dg, 4)), PartAutocomplete)
  {
    BlankHasNoPieces(k.part);
  }

  /** A part number erased from a record whose old part number had three
      pieces is refilled with the old prefix, the record's year and counter,
      which is in step with the drawing number. */
  lemma RefillSynced(row: Row, clicked: string, ctx: Context)
    requires ctx.currentIndex >= 1000
    requires IsBlank(row.part) && ThreePieces(clicked)
    ensures var e, dg := EditCell(Part, row, clicked, ctx), CurrentNumber(ctx);
      && e.k.part == Pieces(clicked)[0] + "-" + SliceTo(dg, 4) + "-" + SliceFrom(dg, 4)
      && Synced(e.k.part, dg)
      && e.outcome == if LookupFails(e.k.part, ctx) then Failed else PartAutocomplete
  {
    EditPartCell(row, clicked, ctx);
    var k := row.(part := TypedPart(row));
    UpperBlank(row.part);
    BlankPrefix(Upper(row.part), PartWidth);
    PartRuleRefill(k, clicked, ctx);
    DescripRuleCases(PartRule(k, clicked, ctx), ctx);
    CurrentNumberShape(ctx);
    PiecesDashFree(clicked);
    JoinedSynced(Pieces(clicked)[0], CurrentNumber(ctx));
  }

  lemma DashVisible(w: string, i: int)
    requires 0 <= i < |w| && w[i] == '-'
    ensures !IsBlank(w)
  {
    BlankIffAllSpace(w);
  }

  lemma PartRulePrefix(k: Row, clicked: string, ctx: Context)
    requires |k.part| == 5 && k.part[4] == '-'
    ensures var dg := CurrentNumber(ctx);
      PartRule(k, clicked, ctx) == Edit(k.(part := k.part + SliceTo(dg, 4) + "-" + SliceFrom(dg, 4)), PartAutocomplete)
  {
    DashEndNotThreePieces(k.part);
    DashVisible(k.part, 4);
  }

  /** Column 1 changes the part number only by completing it, in one of
      three ways. */
  lemma PartRuleShape(k: Row, clicked: string, ctx: Context)
    ensures var e, dg := PartRule(k, clicked, ctx), CurrentNumber(ctx);
      e.outcome == PartAutocomplete ==>
        || (ThreePieces(clicked) && e.k.part == Pieces(clicked)[0] + "-" + (SliceTo(dg, 4) + "-" + SliceFrom(dg, 4)))
        || (|k.part| == 5 && k.part[4] == '-' && e.k.part == k.part + SliceTo(dg, 4) + "-" + SliceFrom(dg, 4))
        || (|k.part| == 10 && k.part[9] == '-' && e.k.part == k.part + SliceFrom(k.dwg, 4))
    ensures var e := PartRule(k, clicked, ctx);
      e.outcome != PartAutocomplete ==> e.k.part == k.part
  {
    var dg := CurrentNumber(ctx);
    var head := if ThreePieces(clicked) then Pieces(clicked)[0] else "";
    assert head + "-" + SliceTo(dg, 4) + "-" + SliceFrom(dg, 4) == head + "-" + (SliceTo(dg, 4) + "-" + SliceFrom(dg, 4));
  }

  /** Any five characters ending in a dash are completed with the record's
      year and counter; when the first four hold no dash the result is in
      step with the drawing number. */
  lemma PrefixCompleted(row: Row, clicked: string, ctx: Context)
    requires ctx.currentIndex >= 1000
    requires var w := TypedPart(row); |w| == 5 && w[4] == '-'
    ensures var e, w, dg := EditCell(Part, row, clicked, ctx), TypedPart(row), CurrentNumber(ctx);
      && e.k.part == w + SliceTo(dg, 4) + "-" + SliceFrom(dg, 4)
      && ('-' !in w[..4] ==> Synced(e.k.part, dg))
      && e.outcome == if LookupFails(e.k.part, ctx) then Failed else PartAutocomplete
  {
    PrefixEdit(row, clicked, ctx);
    CurrentNumberShape(ctx);
    if '-' !in TypedPart(row)[..4] {
      PrefixSynced(TypedPart(row), CurrentNumber(ctx));
    }
  }

  lemma PrefixEdit(row: Row, clicked: string, ctx: Context)
    requires var w := TypedPart(row); |w| == 5 && w[4] == '-'
    ensures var e, w, dg := EditCell(Part, row, clicked, ctx), TypedPart(row), CurrentNumber(ctx);
      && e.k.part == w + SliceTo(dg, 4) + "-" + SliceFrom(dg, 4)
      && e.outcome == if LookupFails(e.k.part, ctx) then Failed else PartAutocomplete
  {
    EditPartCell(row, clicked, ctx);
    var k := row.(part := TypedPart(row));
    PartRulePrefix(k, clicked, ctx);
    DescripRuleCases(PartRule(k, clicked, ctx), ctx);
  }

  /** A prefix and dash completed with a drawing number's year and counter
      is in step with it. */
  lemma PrefixSynced(w: string, dg: string)
    requires |w| == 5 && w[4] == '-' && '-' !in w[..4]
    requires AllDigits(dg) && |dg| >= 7
    ensures Synced(w + SliceTo(dg, 4) + "-" + SliceFrom(dg, 4), dg)
  {
    JoinedSynced(w[..4], dg);
    assert w == w[..4] + "-" by {
      assert w[4..] == "-";
      assert w == w[..4] + w[4..];
    }
  }

  lemma YearPrefixShape(w: string)
    requires |w| == 10 && w[4] == '-' && w[9] == '-'
    ensures w == w[..4] + ['-'] + (w[5..9] + ['-'] + [])
    ensures w == w[..4] + "-" + w[5..9] + "-"
  {
    var y := w[5..9];
    assert w[4..] == ['-'] + (y + ['-'] + []) by {
      assert w[9..] == ['-'];
      assert w[5..] == y + w[9..];
    }
    assert w == w[..4] + w[4..];
  }

  lemma PartRuleYear(k: Row, clicked: string, ctx: Context)
    requires var w, dg := k.part, CurrentNumber(ctx);
      |w| == 10 && w[9] == '-' && w[5..9] == SliceTo(dg, 4)
    ensures PartRule(k, clicked, ctx) == Edit(k.(part := k.part + SliceFrom(k.dwg, 4)), PartAutocomplete)
  {
    DashEndNotThreePieces(k.part);
    DashVisible(k.part, 9);
  }

  /** Ten characters ending in a dash, whose sixth to ninth are the record's
      year, are completed with the counter of the row's drawing number; the
      result is in step with the record's drawing number when the text reads
      prefix, dash, year, dash with a dash-free prefix and the row shows the
      record's number. */
  lemma YearCompleted(row: Row, clicked: string, ctx: Context)
    requires ctx.currentIndex >= 1000
    requires var w, dg := TypedPart(row), CurrentNumber(ctx);
      |w| == 10 && w[9] == '-' && w[5..9] == SliceTo(dg, 4)
    ensures var e, w, dg := EditCell(Part, row, clicked, ctx), TypedPart(row), CurrentNumber(ctx);
      && e.k.part == w + SliceFrom(row.dwg, 4)
      && (w[4] == '-' && '-' !in w[..4] && SliceFrom(row.dwg, 4) == SliceFrom(dg, 4) ==> Synced(e.k.part, dg))
      && e.outcome == if LookupFails(e.k.part, ctx) then Failed else PartAutocomplete
  {
    YearEdit(row, clicked, ctx);
    CurrentNumberShape(ctx);
    var w := TypedPart(row);
    if w[4] == '-' && '-' !in w[..4] {
      YearSynced(w, CurrentNumber(ctx));
    }
  }

  lemma YearEdit(row: Row, clicked: string, ctx: Context)
    requires var w, dg := TypedPart(row), CurrentNumber(ctx);
      |w| == 10 && w[9] == '-' && w[5..9] == SliceTo(dg, 4)
    ensures var e, w := EditCell(Part, row, clicked, ctx), TypedPart(row);
      && e.k.part == w + SliceFrom(row.dwg, 4)
      && e.outcome == if LookupFails(e.k.part, ctx) then Failed else PartAutocomplete
  {
    EditPartCell(row, clicked, ctx);
    var k := row.(part := TypedPart(row));
    PartRuleYear(k, clicked, ctx);
    DescripRuleCases(PartRule(k, clicked, ctx), ctx);
  }

  /** A prefix, a dash, a drawing number's year and a dash, completed with
      its counter, is in step with it. */
  lemma YearSynced(w: string, dg: string)
    requires |w| == 10 && w[4] == '-' && w[9] == '-' && '-' !in w[..4] && w[5..9] == SliceTo(dg, 4)
    requires AllDigits(dg) && |dg| >= 7
    ensures Synced(w + SliceFrom(dg, 4), dg)
  {
    JoinedSynced(w[..4], dg);
    YearPrefixShape(w);
    assert w + SliceFrom(dg, 4) == w[..4] + "-" + SliceTo(dg, 4) + "-" + SliceFrom(dg, 4);
  }

  /** The description changes only to the suggestion stored for the new part
      number's prefix, and only for a record that has no description yet;
      such a record whose part number is thirteen or more characters with a
      known four-digit prefix and a dash gets that prefix's description. */
  lemma DescripSuggested(row: Row, clicked: string, ctx: Context)
    ensures var e := EditCell(Part, row, clicked, ctx); var p := e.k.part;
      e.k.descrip != row.descrip ==>
        && IsBlank(ctx.currentDescrip) && |p| >= 13 && p[4] == '-'
        && PyInt(SliceTo(p, 4)).Some? && PyInt(SliceTo(p, 4)).value in ctx.descripOfPrefix
        && e.k.descrip == ctx.descripOfPrefix[PyInt(SliceTo(p, 4)).value]
    ensures var e := EditCell(Part, row, clicked, ctx); var p := e.k.part;
      (&& IsBlank(ctx.currentDescrip) && |p| >= 13 && p[4] == '-' && IsDigitText(p[..4])
       && ParseDigits(p[..4]) as int in ctx.descripOfPrefix) ==>
        e.outcome != Failed && e.k.descrip == ctx.descripOfPrefix[ParseDigits(p[..4]) as int]
  {
    EditPartCell(row, clicked, ctx);
    var e0 := PartRule(row.(part := TypedPart(row)), clicked, ctx);
    assert e0.k.descrip == row.descrip;
    var p := e0.k.part;
    if |p| >= 13 && IsDigitText(p[..4]) {
      PyIntDigits(p[..4]);
      assert SliceTo(p, 4) == p[..4];
    }
  }

  /** Columns 0-3 are upper-cased and the author lower-cased; part numbers
      are cut to 30 characters and descriptions to 40. */
  lemma TextNormalised(c: Column, row: Row, clicked: string, ctx: Context)
    ensures var e := EditCell(c, row, clicked, ctx);
      c == Descrip ==>
        && |e.k.descrip| == (if |row.descrip| < DescripWidth then |row.descrip| else DescripWidth)
        && forall i :: 0 <= i < |e.k.descrip| ==> e.k.descrip[i] == UpperChar(row.descrip[i])
    ensures var e := EditCell(c, row, clicked, ctx);
      c == Author ==>
        && |e.k.author| == |row.author|
        && forall i :: 0 <= i < |e.k.author| ==> e.k.author[i] == LowerChar(row.author[i])
    ensures var e := EditCell(c, row, clicked, ctx);
      c == Part && (e.outcome == Update || e.outcome == PartWarning) ==> e.k.part == TypedPart(row)
    ensures var e := EditCell(c, row, clicked, ctx);
      c == Dwg && (e.outcome.Renumber? || e.outcome == Overwrite) ==> e.k.dwg == Upper(row.dwg)
  {
    match c
    case Descrip => DescripNormalised(row, clicked, ctx);
    case Author => AuthorNormalised(row, clicked, ctx);
    case Part => PartNormalised(row, clicked, ctx);
    case Dwg => NumberNormalised(row, clicked, ctx);
    case Date =>
  }

  /* ------------------------------------------------------ date column */

  /** A date is rejected exactly when the upper-cased text does not parse;
      a date once accepted is accepted again, unchanged, when the cell is
      edited to the text it now holds. */
  lemma DateEditStable(row: Row, clicked: string, ctx: Context)
    ensures var e := EditCell(Date, row, clicked, ctx);
      e.outcome == DateRejected <==> NormaliseDate(Upper(row.date)).None?
    ensures var e := EditCell(Date, row, clicked, ctx);
      e.outcome == Update ==> EditCell(Date, e.k, clicked, ctx) == e
  {
    var s := Upper(row.date);
    if NormaliseDate(s).Some? {
      var d := NormaliseDate(s).value;
      NormalisedDateUpper(s);
      NormaliseDateIdempotent(s);
      var e := EditCell(Date, row, clicked, ctx);
      assert e == Edit(row.(date := d), Update);
      assert Put(e.k, Date, Upper(d)) == e.k;
    }
  }

  /** A normalised date holds only digits and slashes, which upper-casing
      leaves alone. */
  lemma NormalisedDateUpper(s: string)
    requires NormaliseDate(s).Some?
    ensures Upper(NormaliseDate(s).value) == NormaliseDate(s).value
  {
    var r := NormaliseDate(s).value;
    var j := Split(s, "/");
    AcceptedDateShape(s);
    forall i | 0 <= i < |r|
      ensures !('a' <= r[i] <= 'z')
    {
      if i < 2 {
        assert r[i] == r[..2][i];
      } else if 3 <= i < 5 {
        assert r[i] == r[3..5][i - 3];
      } else if i >= 6 {
        assert r[i] == j[2][i - 6];
      }
    }
    UpperKeeps(r);
  }

  lemma DescripNormalised(row: Row, clicked: string, ctx: Context)
    ensures var e := EditCell(Descrip, row, clicked, ctx);
      && |e.k.descrip| == (if |row.descrip| < DescripWidth then |row.descrip| else DescripWidth)
      && forall i :: 0 <= i < |e.k.descrip| ==> e.k.descrip[i] == UpperChar(row.descrip[i])
  {
  }

  lemma AuthorNormalised(row: Row, clicked: string, ctx: Context)
    ensures var e := EditCell(Author, row, clicked, ctx);
      && |e.k.author| == |row.author|
      && forall i :: 0 <= i < |e.k.author| ==> e.k.author[i] == LowerChar(row.author[i])
  {
  }

  lemma PartNormalised(row: Row, clicked: string, ctx: Context)
    ensures var e := EditCell(Part, row, clicked, ctx);
      e.outcome == Update || e.outcome == PartWarning ==> e.k.part == TypedPart(row)
  {
    EditPartCell(row, clicked, ctx);
    var k := row.(part := TypedPart(row));
    DescripRuleCases(PartRule(k, clicked, ctx), ctx);
    PartRuleShape(k, clicked, ctx);
  }

  lemma NumberNormalised(row: Row, clicked: string, ctx: Context)
    ensures var e := EditCell(Dwg, row, clicked, ctx);
      e.outcome.Renumber? || e.outcome == Overwrite ==> e.k.dwg == Upper(row.dwg)
  {
    EditNumberCell(row, clicked, ctx);
  }
}
