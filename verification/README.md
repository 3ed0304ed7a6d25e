# dwglog2 drawing log — a Dafny model of its number, cell-edit, search and CSV logic

dwglog2 is a small PyQt drawing log backed by SQLite. Every record has:

- a hidden nine-digit sequence index (`dwg_index`, for example `202100055`), which is the year followed by a five-digit counter;
- a drawing number shown to users (`2021055`), which is the year followed by the counter with its leading zeros whittled off and padded back to three digits;
- a part number, a description, a date and an author.

This project models the deterministic core of the program as pure Dafny functions and proves what they promise.

- **Numbering** (`numbering.dfy`) covers three things.
  - `indexnum2dwgnum`: from an index to its drawing number.
  - The index that a drawing number typed into the table is renumbered to (`int(k0[:4] + (9 % len(k0))*'0' + k0[4:])`).
  - `generate_nos`: the next index, drawing number and autofilled part number.
  - The part-number/drawing-number synchronisation predicate is also defined here.
- **CellEdit** (`celledit.dfy`) is the classifier of `cell_changed`. The reference is temp4.py lines 58–226, which extends dwglog2.py's own `cell_changed` with the part-number rules. It upper-cases or lower-cases the cell, cuts it to its width, and classifies the edit as one of:
  - Delete, Restore, Renumber, MaxExceeded or Overwrite (drawing-number column);
  - DateRejected (date column);
  - PartWarning, PartAutocomplete or Failed (part-number column, with its description lookup);
  - a plain Update.
- **Prompts** (`prompts.dfy`) picks the dialog that follows the classification, with its title and text, and the database change the OK button applies. Two versions exist:
  - the dialog as the source picks it, by comparing the edited cell with marker strings;
  - the intended dialog, picked by outcome.
- **Dates** (`dates.dfy`) normalises the date cell (`mm/dd/yyyy`, with month and day made two digits).
- **Search** (`search.dfy`) covers `search`:
  - the search text is split on `" or "` and `;` into alternatives of trimmed glob patterns;
  - the SELECT statement is built by the two appending loops, which a method models.
- **CsvStable** (`csvstable.dfy`) covers `make_csv_file_stable` from dwglog2_convert.py. It turns delimiter commas into `$` and keeps the commas inside the description field. The function is modelled on a list of lines, in two versions:
  - as written;
  - as intended (see Findings).
- **Text**, **Digits** and **Results** are support modules.
  - Text models Python's string built-ins with their edge cases: `strip`, `split`, `count`, `find`, `replace` with a count, negative slice bounds, and ASCII `upper`/`lower`.
  - Digits models `str`/`int` on naturals, `zfill` and Python's `int()` on text.
  - Results provides `Option`/`Result`.

The database-derived values are parameters of the classifier (a `Context`):

- the last index;
- the index of the edited record;
- its current description;
- the prefix-to-description table `pndescrip`.

Today's year is a parameter of `generate_nos`.

Where dwglog2.py's `cell_changed` (lines 567–720) and temp4.py's disagree, the model follows temp4.py. The classification of columns 0, 2, 3 and 4 is the same in both. dwglog2.py marks a rejected date with `'abort3'` and returns silently; temp4.py returns directly. Both are modelled as the silent `DateRejected`.

## Model

| member | source | states |
|---|---|---|
| Text.Strip | dwglog2.py:540 | `str.strip()`: the result is the infix left between a whitespace-only head and a whitespace-only tail, and has no whitespace at either end |
| Text.StripWith | dwglog2.py:536 | `strip('; ')` with any character class: the result is the infix between a head and a tail made only of droppable characters, neither of its own ends droppable |
| Text.JoinSplit | dwglog2.py:539 | splitting and joining back with the same separator gives the original text |
| Text.SplitJoin | temp4.py:115 | pieces free of the separator character, once joined, split back into exactly those pieces |
| Text.SplitCharCount | temp4.py:121 | splitting on a character gives one more piece than the text has occurrences of it, so `count('-') == 2` and `len(split('-')) == 3` go together |
| Text.Find | dwglog2_convert.py:124 | `str.find(c)` is -1 exactly when `c` is absent, otherwise the first position holding `c` |
| Text.FindText | dwglog2_convert.py:115 | `str.find(word)`: an occurrence, with none earlier; -1 only when there is no occurrence at all |
| Text.ReplaceAt | dwglog2_convert.py:126 | `str.replace(a, b, count)`: a character changes exactly when it is an `a` preceded by fewer than `count` other `a`s, every `a` when the count is negative |
| Text.ReplaceAll | dwglog2_convert.py:117 | `str.replace(a, b)` changes every `a` into `b` and nothing else |
| Text.CountAppend | dwglog2_convert.py:114 | `str.count` adds up over concatenation |
| Text.SliceBound | temp4.py:114 | the bound Python uses for `s[:n]`/`s[n:]`: `n` itself inside the text, counted from the end when negative, the length beyond the end and 0 before the start |
| Text.LowerOfUpper | temp4.py:95 | lower-casing an upper-cased text equals lower-casing the original, so the delete keywords are recognised in any case |
| Text.BlankIffAllSpace | temp4.py:107 | `s.strip() == ''` holds exactly when every character is whitespace |
| Text.UpperBlank | temp4.py:107 | upper-casing does not change whether a cell is blank |
| Digits.NatStr | dwglog2.py:736 | `str(n)` is canonical digit text (no leading zero) that `int()` reads back as `n` |
| Digits.NatStrParse | dwglog2.py:736 | `str(int(s)) == s` for canonical digit text: printing inverts parsing |
| Digits.ParseAppend | dwglog2.py:736 | the value of concatenated digit texts is the first scaled by the length of the second, plus the second |
| Digits.StripLeadingZeros | dwglog2.py:730-734 | the whittling loop removes exactly the leading zeros: what is left is a suffix that does not start with `0` |
| Digits.StripLeadingZerosValue | dwglog2.py:730-734 | whittling leading zeros does not change the value of a digit text |
| Digits.ZFillDigits | dwglog2.py:735 | `zfill(width)` on digits prefixes zeros up to the width and keeps the value |
| Digits.PyIntDigits | temp4.py:141 | `int()` of a plain digit text is its value |
| Numbering.SuffixTextDigits | dwglog2.py:728-735 | the counter part of the drawing number has the value of the index's digits after the year |
| Numbering.IndexToNumberText | dwglog2.py:727-736 | the drawing number prints as the index's first four digits followed by the whittled, zero-filled counter |
| Numbering.IndexToNumberShort | dwglog2.py:727-736 | an index of at most four digits has no counter, and its drawing number is the index with `000` appended |
| Numbering.IndexToNumberArith | dwglog2.py:727-736 | arithmetic reference: for year `y` and counter `c < 100000` the drawing number is `y * 10^w + c`, with `w` the counter's digit count but at least 3 |
| Numbering.IndexToNumberCompact | dwglog2.py:727-736 | for counters below 1000 the drawing number is `year * 1000 + counter`, e.g. 202100055 gives 2021055 |
| Numbering.CounterSuffix | dwglog2.py:728-735 | for a nine-digit index the suffix is the counter's own digits zero-filled to three, which is `000` for counter 0 |
| Numbering.ProposedIndexText | temp4.py:99 | the proposed index prints as the typed number with `9 - len` zeros inserted after the year |
| Numbering.ProposedDisplay | temp4.py:99 | the drawing number of the proposed index is the typed year followed by the typed counter, whittled and re-padded |
| Numbering.CounterKept | dwglog2.py:735 | whittling and re-padding to three gives back a counter text of exactly three digits, or of more digits without a leading zero |
| Numbering.RenumberKeeps | temp4.py:98-99 | a seven-digit number, or one whose counter has no leading zero, is shown again unchanged after renumbering |
| Numbering.RenumberChanges | temp4.py:98-99 | an eight- or nine-digit number whose counter starts with `0` is shown afterwards as a smaller number |
| Numbering.RenumberRoundTrip | temp4.py:98-99 | typing a number and displaying its proposed index gives the typed number back if and only if it has seven digits or its counter has no leading zero |
| Numbering.NumberIndexRoundTrip | dwglog2.py:727-736 | for every nine-digit index, typing its drawing number back proposes that same index: the renumbering rule inverts `indexnum2dwgnum` |
| Numbering.InYearNonNegative | dwglog2.py:489 | an `int` cell whose text starts with the year is non-negative |
| Numbering.YearIndexes | dwglog2.py:488-490 | `int_list` holds exactly the `int` cells whose first four characters are the year |
| Numbering.MaxOf | dwglog2.py:492 | `max` is an element and bounds every element |
| Numbering.GenerateNos | dwglog2.py:486-508 | fails (unbound `new_dwg_index`) exactly when no index is in the current year, after computing `year*1000+1`; otherwise the new index is one past the largest in-year index |
| Numbering.GeneratedNumberText | dwglog2.py:494-502 | the generated drawing number prints as the year followed by the whittled, zero-filled counter of the new index |
| Numbering.GeneratedAgreesWithCodec | dwglog2.py:494-502 | unless the new index leaves the year, the generated drawing number is what `indexnum2dwgnum` shows for the new index |
| Numbering.AutofillChangesIffPrefix | dwglog2.py:505-507 | the part number changes if and only if it is four digits, or four digits and a dash |
| Numbering.PiecesOfJoin | temp4.py:115 | three dash-free pieces joined with dashes split back into those three pieces |
| Numbering.JoinedSynced | temp4.py:132 | a dash-free prefix joined to a drawing number's year and counter is in sync with that drawing number |
| Numbering.AutofillSynced | dwglog2.py:505-507 | an autofilled part number is in sync (the column-1 test) with the drawing number it was built from |
| Numbering.GeneratedPartSynced | dwglog2.py:486-508 | a generated part number is in sync with the generated drawing number |
| Dates.TwoDigitsValue | temp4.py:151 | `zfill(3)[-2:]` of a number below 100 is two digits with the same value |
| Dates.TwoDigitsKeep | temp4.py:151 | two digits stay as they are |
| Dates.SplitDate | temp4.py:145-146 | three slash-free fields joined with `/` have two slashes and split back into those fields |
| Dates.AcceptedDateShape | temp4.py:145-151 | an accepted date had two slashes and valid fields, and is stored as `mm/dd/` with month and day of unchanged value and the year kept verbatim |
| Dates.ValidDateAccepted | temp4.py:145-151 | conversely, two slashes and valid fields are always accepted |
| Dates.NormaliseFields | temp4.py:145-155 | on three fields the result is the padded date exactly when month 1–12, day 1–31 and year 1998–2099 are all digit texts, and rejection otherwise |
| Dates.NormaliseDateIdempotent | temp4.py:151 | a normalised date normalises to itself |
| Dates.EmptyFieldExample | temp4.py:147 | `11//2020` is rejected: an empty field is not digits |
| Dates.ThirteenthMonthExample | temp4.py:148 | `13/01/2020` is rejected |
| CellEdit.EditCell | temp4.py:58-157 | an edit changes only the edited cell, and the description as well for a part-number edit |
| CellEdit.EditCellOutcomes | temp4.py:58-157 | drawing-number outcomes come only from column 0, date rejection only from column 3, part-number outcomes and failed lookups only from column 1 |
| CellEdit.NumberRule | temp4.py:95-112 | column 0 ends in exactly one of delete, restore, renumber, max exceeded or overwrite, and changes only the drawing-number cell |
| CellEdit.PartRule | temp4.py:113-138 | column 1's rules change only the part number and end in update, warning or autocomplete |
| CellEdit.DescripRule | temp4.py:140-142 | the description lookup changes only the description, and either keeps the outcome or fails |
| CellEdit.NumberRuleCases | temp4.py:95-112 | the precedence of column 0 as four if-and-only-ifs: keyword, generated-looking number, blank, anything else |
| CellEdit.UpperTests | temp4.py:59-60 | upper-casing before classifying changes none of the column-0 tests |
| CellEdit.DeleteIffKeyword | temp4.py:95-96 | Delete exactly when the cell reads delete, remove, del or rm in any case |
| CellEdit.RenumberIffGenerated | temp4.py:98-105 | renumber or max exceeded exactly for an all-digit number of seven or more digits starting `20`; renumbering within `lastIndex + 50` targets the proposed index, and beyond that reports `lastIndex + 50` |
| CellEdit.RenumberShowsTyped | temp4.py:98-99 | a seven-digit number is renumbered to an index whose drawing number is the typed number |
| CellEdit.RestoreIffBlank | temp4.py:107-109 | restore exactly for a blank cell, which is refilled with the record's generated drawing number |
| CellEdit.OverwriteOtherwise | temp4.py:111-112 | overwrite exactly for any other non-blank text, stored upper-cased |
| CellEdit.RestoredNumber | temp4.py:109 | a restored drawing number looks generated and proposes the record's own index |
| CellEdit.RestoreThenRetype | temp4.py:98-109 | erasing a drawing number and then confirming the restored number renumbers the record to its own index |
| CellEdit.TypedPart | temp4.py:114 | the part number as classified is the typed one upper-cased and cut to 30 characters |
| CellEdit.SyncedPartUpdates | temp4.py:121-123 | a part number in sync with the drawing number is a plain update of the typed text |
| CellEdit.PartRuleWarning | temp4.py:121-127 | column 1 warns exactly for a three-piece part number with the record's year and another counter, and then changes nothing |
| CellEdit.PartWarningIff | temp4.py:125-127 | the warning outcome of the whole edit, with the description lookup, as an if-and-only-if |
| CellEdit.RefillSynced | temp4.py:130-132 | an erased part number, where the old one had three pieces, is refilled with the old prefix and the record's year and counter, in sync with the drawing number |
| CellEdit.PrefixCompleted | temp4.py:134-135 | any five characters ending in `-` are completed with the year, a dash and the counter; the result is in sync with the drawing number when the first four hold no dash |
| CellEdit.YearCompleted | temp4.py:137-138 | any ten characters ending in `-` whose sixth to ninth are the year are completed with the counter of the row's drawing number; in sync when they read dash-free prefix, dash, year, dash and the row shows the record's number |
| Numbering.DashEndNotThreePieces | temp4.py:121-122 | a part number ending in `-` never passes the three-non-empty-pieces test, so the completions at lines 134 and 137 are reached |
| CellEdit.PartRuleShape | temp4.py:113-138 | column 1 changes the part number only by one of the three completions |
| CellEdit.DescripSuggested | temp4.py:140-142 | the description changes only when the record has none and the part number has 13+ characters, a dash at 4 and a known `int` prefix; the looked-up text is then used |
| CellEdit.TextNormalised | temp4.py:59-62 | each column's stored text is the typed text upper-cased (lower-cased for the author), with the part number cut to 30 and the description to 40 |
| CellEdit.DescripNormalised | temp4.py:143-144 | the description is stored upper-cased and cut to 40 characters |
| CellEdit.AuthorNormalised | temp4.py:156-157 | the author is stored lower-cased, with its length unchanged |
| CellEdit.DateEditStable | temp4.py:145-155 | a date is rejected exactly when it does not parse, and an accepted date edited again is accepted unchanged |
| Prompts.Respond | temp4.py:200-226 | a database change is attached exactly to a confirmation dialog |
| Prompts.CellChanged | temp4.py:58-226 | the whole handler writes only after a confirmation dialog |
| Prompts.HandleCases | temp4.py:160-198 | dialog precedence: silent for a rejected date, an error box for max exceeded, an exception for a failed lookup, otherwise a confirmation; the Delete? title appears exactly for a delete |
| Prompts.RefusalsWriteNothing | temp4.py:160-168 | refused edits write nothing, and the error names the drawing number of `lastIndex + 50` |
| Prompts.DeleteConfirmIff | temp4.py:169-172 | the delete confirmation appears exactly for a delete keyword in the drawing-number column, and confirming deletes the record shown |
| Prompts.DeleteListsFields | temp4.py:169-172 | the delete confirmation lists the five fields, one labelled line each |
| Prompts.UpdateTextLines | temp4.py:196-198 | the update confirmation is the two lines `from:` old text and `to:` new text |
| Prompts.RenumberConfirm | temp4.py:214-220 | a renumbering is confirmed with the typed text and writes the proposed index and its drawing number |
| Prompts.OverwriteConfirm | temp4.py:210-213 | an overwrite warns and writes the upper-cased text at the record's index, the index unchanged |
| Prompts.RestoreConfirm | temp4.py:206-209 | an erased drawing number is confirmed and written back as the generated number |
| Prompts.PartWarningConfirm | temp4.py:180-190 | a desynchronising part number gets the Warning! dialog and, on OK, stores the typed part number with the description |
| Prompts.NumberCellMarkers | temp4.py:95-105 | the drawing-number cell holds a marker string exactly for delete and max exceeded |
| Prompts.PartCellNoMarker | temp4.py:113-142 | a part-number cell never holds a marker string |
| Prompts.DateCellNoMarker | temp4.py:145-151 | a date cell never holds a marker string |
| Prompts.UpperNotMarker | temp4.py:59-60 | upper-cased text is never a marker string |
| Prompts.AgreeOnEdit | temp4.py:160-198 | when the cell holds no marker, comparing markers and dispatching on the outcome pick the same dialog |
| Prompts.AgreeOnMarker | temp4.py:160-172 | the delete and max markers in the drawing-number cell pick the intended dialog |
| Prompts.AsWrittenAgrees | temp4.py:160-226 | the source's dialog choice is the intended one for every edit except an author whose lower-cased text is a marker string |
| Prompts.AuthorMarkerMisprompt | temp4.py:156-172 | an author typed as `delete`, `abort0` or `abort0_maxexceeded` gets a delete dialog, an "Improper dwg. no." error or an exception instead of the update confirmation |
| Search.TermsClean | dwglog2.py:536-540 | patterns hold no `;` and have no whitespace at their ends |
| Search.ParseShape | dwglog2.py:535-540 | one alternative per `" or "` piece, each with at least one clean pattern |
| Search.TermsJoin | dwglog2.py:536-540 | clean, non-empty patterns joined with `;` are split back into exactly those patterns |
| Search.ParseSearchJoin | dwglog2.py:535-540 | alternatives of clean patterns written with `;` and `" or "` parse back into the same alternatives and patterns |
| Search.TerminatedJoin | dwglog2.py:545-546 | appending a separator after every item and cutting the last one gives the items joined by the separator |
| Search.AddClause | dwglog2.py:541-545 | the inner loop appends one alternative's pattern tests joined with AND |
| Search.AddClauses | dwglog2.py:538-545 | the outer loop appends each alternative followed by `) OR (` |
| Search.BuildSelect | dwglog2.py:537-546 | the statement is the head, the alternatives' tests joined with OR, and the ORDER BY tail |
| Search.SearchSelect | dwglog2.py:535-546 | the statement for any search text is the one for its parsed alternatives |
| CsvStable.StableLineKeeps | dwglog2_convert.py:117-128 | every line keeps its length and every character other than `,` and `$`; those two only turn into each other |
| CsvStable.StableLineFromRow | dwglog2_convert.py:124-126 | the restore step only turns `$` back into commas |
| CsvStable.MatchingLineAllDollars | dwglog2_convert.py:119-128 | a line with as many delimiters as the header has every comma turned into `$` |
| CsvStable.StableLineFewer | dwglog2_convert.py:119-126 | a line with no more `$` than `n3` and not `n1` of them gets -1 from `find`, so only its last character is re-examined; a line not ending in a delimiter keeps every `$` |
| CsvStable.StableLineAt | dwglog2_convert.py:119-126 | in a line with surplus commas, `$` before the (n3+1)-th delimiter stay, and from it on the surplus number of `$` become commas again |
| CsvStable.StableLinesShape | dwglog2_convert.py:110-129 | a result exists exactly when there are two lines (the header is line 1); it has as many lines as the input, each of the same length, with only `,`/`$` positions changed |
| CsvStable.HeaderAllDollars | dwglog2_convert.py:117-128 | the header line itself has all its commas turned into `$` |
| CsvStable.DescriptionNeverFound | dwglog2_convert.py:115 | `upper().find('Description')` is always -1 |
| CsvStable.AsWrittenCountsAllCommas | dwglog2_convert.py:114-116 | as written, `n3` counts the commas of the header less its last character, so all of its commas when the header does not end in one |
| CsvStable.DescriptionCommasKept | dwglog2_convert.py:89-94 | with `n3` delimiters before the description and the header's count in all, the description's commas survive and every delimiter becomes `$` |
| CsvStable.ByDescriptionKeepsDescriptions | dwglog2_convert.py:89-94 | the corrected conversion keeps the commas of every row's description field |
| CsvStable.AsWrittenKeepsLastCommas | dwglog2_convert.py:114-128 | as written, the surplus commas are restored after the header's comma count of delimiters, at the end of the line rather than in the description |
| CsvStable.DescriptionCommaExample | dwglog2_convert.py:114-128 | on header `DWG,DESCRIPTION,DATE` and row `1,TANK, 60GAL,X` the conversion as written gives `1$TANK$ 60GAL,X`, the corrected one `1$TANK, 60GAL$X` |

## Left out

- The PyQt user interface (windows, message boxes, clipboard, help): the model returns the dialog's title and text and the intended database change instead.
- SQLite: the statements are not executed, and GLOB matching is not modelled. Last index, current index, current description and the prefix-description table are parameters.
- SQL quoting: a `'` in a search pattern or a cell ends the string literal in the source's statements. The model builds the same text and proves nothing about what SQLite makes of it.
- `updatePN` and `pndescrip` are not part of this model: `pndescrip` is a map parameter. Without `updatePN`, two things are left out:
  - the renumber-time rewrite of the part number (`pnWillChgWithDwgNo`, the two-change Update? dialog);
  - the `part` column of the renumbering statement.
  The record's current part number is therefore not an input.
- temp4.py line 83 reads `result` without a fetch, so every part-number edit there raises. The model takes the evidently intended fetched row (the context parameters).
- temp4.py's stray text at lines 154 and 172 is treated as absent.
- The older duplicate block at temp4.py lines 255–427 is not modelled.
- dwglog2.py's own `cell_changed` (lines 567–724) is not modelled separately. Its classification of columns 0, 2, 3 and 4 agrees with temp4.py's. It differs in the following ways:
  - Column 1 only cuts the text to 30 characters (line 621–622). There is no warning, no completion and no description lookup.
  - There is no Overwrite? or Warning! dialog. An overwrite gets the Update? dialog with its from/to lines (lines 673–683).
  - Every exception is caught (lines 717–724) and shown in an 'Error' box, or an 'SQLite error' box for a database error. In temp4.py the failed lookup escapes, which is modelled as `Crash`.
- File reading, encodings, pandas/Excel export, argparse and the empty export stubs of dwglog2_convert.py: `make_csv_file_stable` is a function over the list of lines.
- `date.today()` and the user name: the year is a parameter of `generate_nos`.
- Case mapping and digit tests are ASCII only. Python's Unicode `upper`, `lower`, `isdigit` and `isnumeric` are wider.
- CsvStable.StableLineAt: states nothing about two kinds of line.
  - Rows with fewer delimiters than the header. In the conversion as written, the header keeps its line break, so `n3` equals `n1`. Such a row holds at most `n3` `$`, `find` gives -1, and only the last character is looked at again (CsvStable.StableLineFewer). A row ending in its line break therefore keeps every `$`. For other `n3`, only StableLineKeeps' character-level property is stated.
  - Lines that already hold `$` before the conversion (its `'$' !in p && '$' !in t`). Such a `$` is counted and turned back like a delimiter; only StableLineKeeps covers these lines.
- Numbering.GeneratedAgreesWithCodec: requires that the new index still starts with the current year. A counter overflow at 99999 is not characterised further.

## Findings

| source | as written | input that shows it | evidently intended | confidence | as-written member | corrected member |
|---|---|---|---|---|---|---|
| temp4.py:160-172 | the dialog is chosen by comparing the edited cell, whatever its column, with the marker strings `abort0`, `abort0_maxexceeded` and `delete` | author cell typed `Delete` (stored as `delete`) | markers are tested only in the drawing-number cell, where the classifier writes them; the author edit gets the Update? confirmation | not executed | Prompts.AuthorMarkerMisprompt | Prompts.DeleteConfirmIff |
| dwglog2_convert.py:115 | `data1[1].upper().find('Description')` searches a mixed-case word in an upper-cased header, so it is always -1 and `n3` counts the header's commas less the last character | header `DWG,DESCRIPTION,DATE`, row `1,TANK, 60GAL,X` gives `1$TANK$ 60GAL,X` | search for `DESCRIPTION`, giving `1$TANK, 60GAL$X` with the description's comma kept | not executed | CsvStable.AsWrittenKeepsLastCommas | CsvStable.ByDescriptionKeepsDescriptions |

In the first finding, `Prompts.CellChangedAsWritten` is the handler as written. `Prompts.CellChanged` is the corrected handler that the rest of the model uses, and `Prompts.AsWrittenAgrees` proves the two differ only on such author texts.

In the second finding, the conversion as written is `CsvStable.MakeStable` and the corrected one is `CsvStable.MakeStableByDescription`. `CsvStable.DescriptionNeverFound` proves the search always fails, and `CsvStable.DescriptionCommaExample` evaluates both conversions on the example.
