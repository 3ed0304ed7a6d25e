/** Drawing numbers and their hidden sequence indexes.

    A sequence index such as 202100055 is the year (four digits) followed by
    a five-digit counter; the drawing number shown to users, 2021055, is the
    year followed by the counter without its leading zeros, padded back to at
    least three digits. This module models `indexnum2dwgnum`, the index a
    typed drawing number is renumbered to, and `generate_nos`, which hands out
    the next index, drawing number and (optionally) part number. */
module Numbering {
  import opened Results
  import opened Text
  import opened Digits

  /* ---------------------------------------------------- index -> number */

  /** The counter part of an index text: everything after the first four
      characters, leading zeros whittled off, zero-filled to three. */
  function SuffixText(s: string): (r: string)
    ensures |r| >= 3
  {
    ZFill(StripLeadingZeros(SliceFrom(s, 4)), 3)
  }

  /** The text `indexnum2dwgnum` hands to `int()`. */
  function DisplayText(s: string): string {
    SliceTo(s, 4) + SuffixText(s)
  }

  lemma SuffixTextDigits(s: string)
    requires AllDigits(s)
    ensures AllDigits(SuffixText(s))
    ensures ParseDigits(SuffixText(s)) == ParseDigits(SliceFrom(s, 4))
  {
    var tail := SliceFrom(s, 4);
    StripLeadingZerosValue(tail);
    ZFillDigits(StripLeadingZeros(tail), 3);
  }

  lemma DisplayTextDigits(s: string)
    requires AllDigits(s)
    ensures AllDigits(DisplayText(s))
  {
    SuffixTextDigits(s);
    AllDigitsAppend(SliceTo(s, 4), SuffixText(s));
  }

  /** `indexnum2dwgnum(dwg_index)`: the drawing number shown for an index. */
  function IndexToNumber(index: nat): nat {
    var t := NatStr(index);
    DisplayTextDigits(t);
    ParseDigits(DisplayText(t))
  }

  /** Printed, the drawing number is the first four digits of the index
      followed by the index's whittled, re-padded counter. */
  lemma IndexToNumberText(index: nat)
    requires index >= 1000
    ensures NatStr(IndexToNumber(index)) == SliceTo(NatStr(index), 4) + SuffixText(NatStr(index))
  {
    var t := NatStr(index);
    NatStrFirst(index);
    DisplayTextDigits(t);
    NatStrLengthAtLeast(index, 4);
    NatStrParse(DisplayText(t));
  }

  /** An index of at most four digits has no counter: its drawing number is
      the index followed by "000". */
  lemma IndexToNumberShort(index: nat)
    requires index < 10000
    ensures IndexToNumber(index) == index * 1000
  {
    var t := NatStr(index);
    NatStrLengthAtMost(index, 4);
    assert SliceFrom(t, 4) == [] && SliceTo(t, 4) == t;
    assert StripLeadingZeros([]) == [];
    assert SuffixText(t) == Zeros(3);
    assert DisplayText(t) == t + Zeros(3);
    ParseAppend(t, Zeros(3));
    ParseZerosValue(3);
    assert Pow10(3) == 1000;
  }

  /** Whittling ignores zeros put in front. */
  lemma {:induction false} StripZerosPrefix(k: nat, u: string)
    ensures StripLeadingZeros(Zeros(k) + u) == StripLeadingZeros(u)
    decreases k
  {
    if k > 0 {
      assert (Zeros(k) + u)[1..] == Zeros(k - 1) + u;
      StripZerosPrefix(k - 1, u);
    } else {
      assert Zeros(k) + u == u;
    }
  }

  /** Width of the displayed counter: three digits, or more when needed. */
  function CounterWidth(counter: nat): nat {
    if |NatStr(counter)| < 3 then 3 else |NatStr(counter)|
  }

  /** A nine-digit index prints as the year followed by the counter
      zero-filled to five digits. */
  lemma NineDigitText(year: nat, counter: nat)
    requires 1000 <= year < 10000 && counter < 100000
    ensures |NatStr(counter)| <= 5
    ensures NatStr(year * 100000 + counter) == NatStr(year) + (Zeros(5 - |NatStr(counter)|) + NatStr(counter))
  {
    var ys, cs := NatStr(year), NatStr(counter);
    assert |cs| <= 5 by {
      assert Pow10(5) == 100000;
      NatStrLengthAtMost(counter, 5);
    }
    var pad := Zeros(5 - |cs|) + cs;
    ParseLeadingZeros(5 - |cs|, cs);
    NatStrFirst(year);
    PrintAfter(ys, pad, year, counter);
  }

  /** Digits of a positive number followed by five digits print back as
      themselves. */
  lemma PrintAfter(ys: string, pad: string, year: nat, counter: nat)
    requires Canonical(ys) && ys[0] != '0' && ParseDigits(ys) == year
    requires AllDigits(pad) && |pad| == 5 && ParseDigits(pad) == counter
    ensures NatStr(year * 100000 + counter) == ys + pad
  {
    ParseAppend(ys, pad);
    assert Pow10(5) == 100000;
    NatStrParse(ys + pad);
  }

  /** The displayed counter of a five-digit counter text with the counter's
      zeros in front. */
  lemma CounterSuffix(year: nat, counter: nat)
    requires 1000 <= year < 10000 && counter < 100000
    ensures |NatStr(year)| == 4
    ensures SuffixText(NatStr(year * 100000 + counter)) == ZFill(if counter == 0 then [] else NatStr(counter), 3)
    ensures SliceTo(NatStr(year * 100000 + counter), 4) == NatStr(year)
  {
    var ys, cs := NatStr(year), NatStr(counter);
    YearLength(year);
    NineDigitText(year, counter);
    var pad := Zeros(5 - |cs|) + cs;
    var t := ys + pad;
    assert NatStr(year * 100000 + counter) == t;
    assert SliceTo(t, 4) == ys && SliceFrom(t, 4) == pad by {
      assert t[..4] == ys && t[4..] == pad;
    }
    assert StripLeadingZeros(pad) == if counter == 0 then [] else cs by {
      if counter == 0 {
        WhittledZero();
      } else {
        WhittledCounter(counter);
      }
    }
  }

  lemma YearLength(year: nat)
    requires 1000 <= year < 10000
    ensures |NatStr(year)| == 4
  {
    assert Pow10(3) == 1000 && Pow10(4) == 10000;
    NatStrLength(year, 4);
  }

  /** A nonzero counter zero-filled to five digits and whittled is the
      counter's digits again. */
  lemma WhittledCounter(counter: nat)
    requires 0 < counter < 100000
    ensures |NatStr(counter)| <= 5
    ensures StripLeadingZeros(Zeros(5 - |NatStr(counter)|) + NatStr(counter)) == NatStr(counter)
  {
    var cs := NatStr(counter);
    assert Pow10(5) == 100000;
    NatStrLengthAtMost(counter, 5);
    StripZerosPrefix(5 - |cs|, cs);
    NatStrFirst(counter);
    StripLeadingZerosNone(cs);
  }

  /** A zero counter zero-filled to five digits whittles away entirely. */
  lemma WhittledZero()
    ensures |NatStr(0)| == 1
    ensures StripLeadingZeros(Zeros(4) + NatStr(0)) == []
  {
    var cs := NatStr(0);
    assert cs == [DigitChar(0)];
    StripZerosPrefix(4, cs);
    assert cs[1..] == [];
  }

  /** Reference arithmetic for nine-digit indexes: year * 10^5 + counter is
      displayed as year * 10^w + counter, w the counter's width. */
  lemma IndexToNumberArith(year: nat, counter: nat)
    requires 1000 <= year < 10000 && counter < 100000
    ensures IndexToNumber(year * 100000 + counter) == year * Pow10(CounterWidth(counter)) + counter
  {
    var ys, cs := NatStr(year), NatStr(counter);
    CounterSuffix(year, counter);
    var t := NatStr(year * 100000 + counter);
    var w := if counter == 0 then [] else cs;
    assert AllDigits(w) && ParseDigits(w) == counter by {
      if counter == 0 {
        assert w == [];
      }
    }
    ZFillDigits(w, 3);
    assert |ZFill(w, 3)| == CounterWidth(counter);
    assert DisplayText(t) == ys + ZFill(w, 3);
    ParseAppend(ys, ZFill(w, 3));
  }

  /** Indexes whose counter is below 1000 map to year * 1000 + counter;
      in particular the first index of a year, year * 10^5 + 1, shows as
      year * 1000 + 1. */
  lemma IndexToNumberCompact(year: nat, counter: nat)
    requires 1000 <= year < 10000 && counter < 1000
    ensures IndexToNumber(year * 100000 + counter) == year * 1000 + counter
  {
    IndexToNumberArith(year, counter);
    assert Pow10(3) == 1000;
    NatStrLengthAtMost(counter, 3);
    assert CounterWidth(counter) == 3;
  }

  /* ------------------------------------------------------ renumbering */

  /** The index a typed drawing number such as 2021055 stands for:
      `int(k[:4] + (9 % len(k)) * '0' + k[4:])`. */
  function ProposedIndex(k: string): nat
    requires IsDigitText(k)
  {
    var t := SliceTo(k, 4) + Zeros(9 % |k|) + SliceFrom(k, 4);
    AllDigitsAppend(SliceTo(k, 4), Zeros(9 % |k|));
    AllDigitsAppend(SliceTo(k, 4) + Zeros(9 % |k|), SliceFrom(k, 4));
    ParseDigits(t)
  }

  /** For seven to nine digits the proposed index is the typed text with
      zeros inserted after the year, nine digits in all. */
  lemma ProposedIndexText(k: string)
    requires Canonical(k) && 7 <= |k| <= 9
    ensures NatStr(ProposedIndex(k)) == k[..4] + Zeros(9 - |k|) + k[4..]
  {
    assert 9 % |k| == 9 - |k|;
    var t := k[..4] + Zeros(9 - |k|) + k[4..];
    assert SliceTo(k, 4) == k[..4] && SliceFrom(k, 4) == k[4..];
    AllDigitsAppend(k[..4], Zeros(9 - |k|));
    AllDigitsAppend(k[..4] + Zeros(9 - |k|), k[4..]);
    assert t[0] == k[0];
    NatStrParse(t);
  }

  /** The drawing number displayed after renumbering to a typed text. */
  lemma ProposedDisplay(k: string)
    requires Canonical(k) && 7 <= |k| <= 9
    ensures AllDigits(k[..4] + ZFill(StripLeadingZeros(k[4..]), 3))
    ensures IndexToNumber(ProposedIndex(k)) == ParseDigits(k[..4] + ZFill(StripLeadingZeros(k[4..]), 3))
  {
    ProposedIndexText(k);
    var t := k[..4] + Zeros(9 - |k|) + k[4..];
    ProposedPieces(k, t);
    DisplayTextDigits(t);
  }

  /** The proposed index text cut back into year and whittled counter. */
  lemma ProposedPieces(k: string, t: string)
    requires Canonical(k) && 7 <= |k| <= 9
    requires t == k[..4] + Zeros(9 - |k|) + k[4..]
    ensures DisplayText(t) == k[..4] + ZFill(StripLeadingZeros(k[4..]), 3)
  {
    var z := Zeros(9 - |k|) + k[4..];
    assert SliceTo(t, 4) == k[..4] && SliceFrom(t, 4) == z by {
      assert t == k[..4] + z;
      SliceAtJoint(k[..4], z);
    }
    PaddedTailWhittles(k);
  }

  /** The zeros inserted after the year vanish when the counter is whittled. */
  lemma PaddedTailWhittles(k: string)
    requires 4 <= |k| <= 9
    ensures StripLeadingZeros(Zeros(9 - |k|) + k[4..]) == StripLeadingZeros(k[4..])
  {
    StripZerosPrefix(9 - |k|, k[4..]);
  }

  /** A counter text of exactly three digits, or of three or more without a
      leading zero, survives whittling and re-padding. */
  lemma CounterKept(u: string)
    requires AllDigits(u) && |u| >= 3
    requires |u| == 3 || u[0] != '0'
    ensures ZFill(StripLeadingZeros(u), 3) == u
  {
    var r := StripLeadingZeros(u);
    if u[0] != '0' {
      StripLeadingZerosNone(u);
    } else {
      StripLeadingZerosSplit(u);
      StripLeadingZerosValue(u);
      ZFillDigits(r, 3);
      assert |ZFill(r, 3)| == 3;
    }
  }

  lemma RenumberKeeps(k: string)
    requires Canonical(k) && 7 <= |k| <= 9
    requires |k| == 7 || k[4] != '0'
    ensures IndexToNumber(ProposedIndex(k)) == ParseDigits(k)
  {
    ProposedDisplay(k);
    RejoinCounter(k);
  }

  lemma RejoinCounter(k: string)
    requires Canonical(k) && 7 <= |k| <= 9
    requires |k| == 7 || k[4] != '0'
    ensures k[..4] + ZFill(StripLeadingZeros(k[4..]), 3) == k
  {
    var u := k[4..];
    assert AllDigits(u) by {
      forall i | 0 <= i < |u|
        ensures IsDigit(u[i])
      {
        assert u[i] == k[i + 4];
      }
    }
    assert k[..4] + u == k;
    CounterKept(u);
  }

  lemma RenumberChanges(k: string)
    requires Canonical(k) && 8 <= |k| <= 9
    requires k[4] == '0'
    ensures IndexToNumber(ProposedIndex(k)) < ParseDigits(k)
  {
    ProposedDisplay(k);
    var head, u := k[..4], k[4..];
    var r := StripLeadingZeros(u);
    assert |r| < |u| by {
      assert u[0] == '0';
    }
    var z := ZFill(r, 3);
    assert |z| < |u|;
    var d := head + z;
    assert |d| < |k|;
    assert ParseDigits(d) < Pow10(|d|);
    ParseLowerBound(k);
    PowMonotone(|d|, |k| - 1);
  }

  /** A typed seven-, eight- or nine-digit drawing number is displayed again
      unchanged after renumbering exactly when it is seven digits long or its
      counter has no leading zero (20210055 would come back as 2021055). */
  lemma RenumberRoundTrip(k: string)
    requires Canonical(k) && 7 <= |k| <= 9
    ensures IndexToNumber(ProposedIndex(k)) == ParseDigits(k) <==> (|k| == 7 || k[4] != '0')
  {
    if |k| == 7 || k[4] != '0' {
      RenumberKeeps(k);
    } else {
      RenumberChanges(k);
    }
  }

  /** Typing a displayed drawing number back into the drawing-number
      column proposes exactly the nine-digit index it was displayed for:
      the renumbering rule inverts `indexnum2dwgnum`. */
  lemma NumberIndexRoundTrip(index: nat)
    requires 100000000 <= index < 1000000000
    ensures IsDigitText(NatStr(IndexToNumber(index)))
    ensures ProposedIndex(NatStr(IndexToNumber(index))) == index
  {
    var t := NatStr(index);
    var k := NatStr(IndexToNumber(index));
    NumberPieces(index);
    ProposedIndexValue(k);
    PaddedCounter(t[..4], t[4..], k[4..], 9 - |k|);
    assert t[..4] + t[4..] == t;
  }

  /** The drawing number of a nine-digit index keeps the index's year and
      carries a counter worth the index's last five digits. */
  lemma NumberPieces(index: nat)
    requires 100000000 <= index < 1000000000
    ensures var t, k := NatStr(index), NatStr(IndexToNumber(index));
      |t| == 9 && Canonical(k) && 7 <= |k| <= 9 && k[..4] == t[..4]
      && AllDigits(k[4..]) && ParseDigits(k[4..]) == ParseDigits(t[4..])
  {
    var t := NatStr(index);
    NineDigits(index);
    IndexToNumberText(index);
    var z := SuffixText(t);
    SuffixTextDigits(t);
    var k := NatStr(IndexToNumber(index));
    assert k == t[..4] + z;
    assert k[..4] == t[..4] && k[4..] == z;
  }

  lemma ProposedIndexValue(k: string)
    requires Canonical(k) && 7 <= |k| <= 9
    ensures AllDigits(k[..4] + (Zeros(9 - |k|) + k[4..]))
    ensures ProposedIndex(k) == ParseDigits(k[..4] + (Zeros(9 - |k|) + k[4..]))
  {
    ProposedIndexText(k);
    assert k[..4] + Zeros(9 - |k|) + k[4..] == k[..4] + (Zeros(9 - |k|) + k[4..]);
  }

  lemma NineDigits(index: nat)
    requires 100000000 <= index < 1000000000
    ensures |NatStr(index)| == 9
  {
    assert Pow10(9) == 1000000000 && Pow10(8) == 100000000;
    NatStrLength(index, 9);
  }

  /** Re-padding a counter with zeros to its old width keeps the whole
      number's value. */
  lemma PaddedCounter(head: string, u: string, z: string, m: nat)
    requires AllDigits(head) && AllDigits(u) && AllDigits(z)
    requires m + |z| == |u| && ParseDigits(z) == ParseDigits(u)
    ensures AllDigits(head + (Zeros(m) + z))
    ensures ParseDigits(head + (Zeros(m) + z)) == ParseDigits(head + u)
  {
    ParseLeadingZeros(m, z);
    ParseAppend(head, Zeros(m) + z);
    ParseAppend(head, u);
  }

  /* ------------------------------------------------------- generation */

  /** A value of the `dwg_index` column as Python sees it: an `int`, or any
      other value (text, NULL). */
  datatype Cell = IntCell(value: int) | OtherCell

  /** `str(i)` for any integer. */
  function IntStr(i: int): string {
    if i < 0 then "-" + NatStr(-i) else NatStr(i)
  }

  /** `isinstance(x, int) and str(x)[:4] == str(year)`. */
  predicate InYear(c: Cell, year: nat) {
    c.IntCell? && SliceTo(IntStr(c.value), 4) == NatStr(year)
  }

  lemma InYearNonNegative(c: Cell, year: nat)
    requires InYear(c, year)
    ensures c.value >= 0
  {
    var s := IntStr(c.value);
    assert |s| > 0 && SliceTo(s, 4)[0] == s[0];
    assert s[0] == '-' <==> c.value < 0;
    assert NatStr(year)[0] != '-';
  }

  /** The in-year indexes, in input order (the `int_list` of `generate_nos`). */
  function YearIndexes(cells: seq<Cell>, year: nat): (r: seq<nat>)
    ensures forall i :: 0 <= i < |cells| && InYear(cells[i], year) ==> cells[i].value in r
    ensures forall x :: x in r ==> exists i :: 0 <= i < |cells| && InYear(cells[i], year) && cells[i].value == x
  {
    if |cells| == 0 then []
    else
      var rest := YearIndexes(cells[1..], year);
      assert forall i :: 1 <= i < |cells| ==> cells[i] == cells[1..][i - 1];
      if InYear(cells[0], year) then
        InYearNonNegative(cells[0], year);
        [cells[0].value as nat] + rest
      else rest
  }

  /** `max(xs)`. */
  function MaxOf(xs: seq<nat>): (m: nat)
    requires |xs| > 0
    ensures m in xs
    ensures forall x :: x in xs ==> x <= m
  {
    if |xs| == 1 then xs[0]
    else
      var m := MaxOf(xs[1..]);
      assert forall x :: x in xs ==> x == xs[0] || x in xs[1..];
      if xs[0] > m then xs[0] else m
  }

  /** A part number the user typed as a bare prefix: four digits, or four
      digits and a dash. */
  predicate IsPartPrefix(p: string) {
    || (IsDigitText(p) && |p| == 4)
    || (|p| == 5 && IsDigitText(p[..4]) && p[4] == '-')
  }

  /** The part-number autofill of `generate_nos`: a bare prefix becomes
      `prefix-year-counter`, anything else is kept. */
  function AutofillPart(partNo: string, year: nat, dwgNo: nat): string {
    if IsPartPrefix(partNo) then SliceTo(partNo, 4) + "-" + NatStr(year) + "-" + SliceFrom(NatStr(dwgNo), 4)
    else partNo
  }

  datatype Generated = Generated(dwgNo: nat, partNo: string, newIndex: nat)

  /** `generate_nos` fails when no index of the current year exists: it
      computes year * 1000 + 1 but never binds `new_dwg_index`. */
  datatype GenerateError = NoIndexThisYear(dwgNo: nat)

  /** `generate_nos(dwg_indexes, partNo)` with today's year passed in. */
  function GenerateNos(cells: seq<Cell>, partNo: string, year: nat): (r: Result<Generated, GenerateError>)
    ensures r.Failure? <==> forall i :: 0 <= i < |cells| ==> !InYear(cells[i], year)
    ensures r.Failure? ==> r.error.dwgNo == year * 1000 + 1
    ensures r.Success? ==> forall i :: 0 <= i < |cells| && InYear(cells[i], year) ==> cells[i].value < r.value.newIndex
    ensures r.Success? ==> exists i :: 0 <= i < |cells| && InYear(cells[i], year) && cells[i].value + 1 == r.value.newIndex
  {
    var ints := YearIndexes(cells, year);
    if |ints| > 0 then
      var newIndex := MaxOf(ints) + 1;
      SuffixTextDigits(NatStr(newIndex));
      AllDigitsAppend(NatStr(year), SuffixText(NatStr(newIndex)));
      var dwgNo := ParseDigits(NatStr(year) + SuffixText(NatStr(newIndex)));
      Success(Generated(dwgNo, AutofillPart(partNo, year, dwgNo), newIndex))
    else
      Failure(NoIndexThisYear(year * 1000 + 1))
  }

  /** The generated drawing number prints as the year followed by the
      whittled, re-padded counter of the new index. */
  lemma GeneratedNumberText(cells: seq<Cell>, partNo: string, year: nat)
    requires year > 0
    requires GenerateNos(cells, partNo, year).Success?
    ensures var g := GenerateNos(cells, partNo, year).value;
      NatStr(g.dwgNo) == NatStr(year) + SuffixText(NatStr(g.newIndex))
  {
    var g := GenerateNos(cells, partNo, year).value;
    var s := NatStr(year) + SuffixText(NatStr(g.newIndex));
    SuffixTextDigits(NatStr(g.newIndex));
    AllDigitsAppend(NatStr(year), SuffixText(NatStr(g.newIndex)));
    NatStrFirst(year);
    NatStrParse(s);
  }

  /** Unless the counter overflows into the next year, the generated drawing
      number is exactly what `indexnum2dwgnum` shows for the new index. */
  lemma GeneratedAgreesWithCodec(cells: seq<Cell>, partNo: string, year: nat)
    requires year > 0
    requires GenerateNos(cells, partNo, year).Success?
    requires SliceTo(NatStr(GenerateNos(cells, partNo, year).value.newIndex), 4) == NatStr(year)
    ensures var g := GenerateNos(cells, partNo, year).value; g.dwgNo == IndexToNumber(g.newIndex)
  {
  }

  /** The autofill changes a part number exactly when it is a bare prefix. */
  lemma AutofillChangesIffPrefix(partNo: string, year: nat, dwgNo: nat)
    ensures AutofillPart(partNo, year, dwgNo) != partNo <==> IsPartPrefix(partNo)
  {
    if IsPartPrefix(partNo) {
      assert |AutofillPart(partNo, year, dwgNo)| > |partNo|;
    }
  }

  /* ------------------------------------------------- synchronisation */

  /** The pieces of a part number between its dashes. */
  function Pieces(part: string): seq<string> {
    Split(part, "-")
  }

  /** A part number shaped like `prefix-year-counter`: exactly two dashes
      and three non-empty pieces. */
  predicate ThreePieces(part: string) {
    && '-' in part && Count(part, '-') == 2 && |Pieces(part)| == 3
    && forall i :: 0 <= i < |Pieces(part)| ==> Pieces(part)[i] != []
  }

  /** A part number in sync with the drawing number `dg`: its last two
      pieces are `dg`'s year and counter. */
  predicate Synced(part: string, dg: string) {
    ThreePieces(part) && Pieces(part)[1] == SliceTo(dg, 4) && Pieces(part)[2] == SliceFrom(dg, 4)
  }

  /** Three dash-free pieces joined with dashes split back into themselves. */
  lemma PiecesOfJoin(a: string, b: string, c: string)
    requires '-' !in a && '-' !in b && '-' !in c
    ensures Pieces(a + "-" + b + "-" + c) == [a, b, c]
  {
    assert a + "-" + b + "-" + c == a + ['-'] + (b + ['-'] + c);
    SplitAt(a, '-', b + ['-'] + c);
    SplitAt(b, '-', c);
    SplitNone(c, '-');
  }

  lemma DigitsHaveNoDash(s: string)
    requires AllDigits(s)
    ensures '-' !in s
  {
    assert forall i :: 0 <= i < |s| ==> IsDigit(s[i]) && s[i] != '-';
  }

  /** No piece of a part number holds a dash. */
  lemma PiecesDashFree(part: string)
    ensures forall k :: 0 <= k < |Pieces(part)| ==> '-' !in Pieces(part)[k]
  {
    SplitPiecesFree(part, "-");
    forall k | 0 <= k < |Pieces(part)|
      ensures '-' !in Pieces(part)[k]
    {
      var x := Pieces(part)[k];
      forall i | 0 <= i < |x|
        ensures x[i] != '-'
      {
        OccursAtChar(x, '-', i);
      }
    }
  }

  /** A three-piece part number does not end in a dash, since its last
      piece is non-empty and dash-free. */
  lemma DashEndNotThreePieces(part: string)
    ensures |part| > 0 && part[|part| - 1] == '-' ==> !ThreePieces(part)
  {
    if ThreePieces(part) {
      var p := Pieces(part);
      JoinSplit(part, "-");
      PiecesDashFree(part);
      var a, b, c := p[0], p[1], p[2];
      assert p == [a, b, c] && c != [];
      JoinEndsWithLast(a, b, c);
      assert part[|part| - 1] == c[|c| - 1];
      assert c[|c| - 1] in c;
    }
  }

  /** Three parts joined with dashes end as the last part ends. */
  lemma JoinEndsWithLast(a: string, b: string, c: string)
    requires c != []
    ensures var j := Join([a, b, c], "-"); |j| > 0 && j[|j| - 1] == c[|c| - 1]
  {
    JoinCons(a, [b, c], "-");
    JoinCons(b, [c], "-");
    assert [a, b, c] == [a] + [b, c];
    assert [b, c] == [b] + [c];
    var tail := b + "-" + c;
    assert Join([a, b, c], "-") == (a + "-") + tail;
  }

  /** A dash-free prefix joined to a drawing number's year and counter is
      in sync with that drawing number. */
  lemma JoinedSynced(prefix: string, dg: string)
    requires prefix != [] && '-' !in prefix
    requires AllDigits(dg) && |dg| > 4
    ensures Synced(prefix + "-" + SliceTo(dg, 4) + "-" + SliceFrom(dg, 4), dg)
  {
    var b, c := SliceTo(dg, 4), SliceFrom(dg, 4);
    DigitsHaveNoDash(b);
    DigitsHaveNoDash(c);
    var p := prefix + "-" + b + "-" + c;
    PiecesOfJoin(prefix, b, c);
    assert p[|prefix|] == '-';
    SplitCharCount(p, '-');
  }

  /** An autofilled prefix is in sync with the drawing number it was made for. */
  lemma AutofillSynced(partNo: string, year: nat, dwgNo: nat)
    requires IsPartPrefix(partNo)
    requires SliceTo(NatStr(dwgNo), 4) == NatStr(year) && |NatStr(dwgNo)| > 4
    ensures Synced(AutofillPart(partNo, year, dwgNo), NatStr(dwgNo))
  {
    var a := SliceTo(partNo, 4);
    assert IsDigitText(a);
    DigitsHaveNoDash(a);
    JoinedSynced(a, NatStr(dwgNo));
  }

  /** A part number generated from a prefix is in sync with the generated
      drawing number. */
  lemma GeneratedPartSynced(cells: seq<Cell>, partNo: string, year: nat)
    requires 1000 <= year < 10000
    requires IsPartPrefix(partNo)
    requires GenerateNos(cells, partNo, year).Success?
    ensures var g := GenerateNos(cells, partNo, year).value; Synced(g.partNo, NatStr(g.dwgNo))
  {
    var g := GenerateNos(cells, partNo, year).value;
    GeneratedNumberText(cells, partNo, year);
    assert Pow10(3) == 1000 && Pow10(4) == 10000;
    NatStrLength(year, 4);
    AutofillSynced(partNo, year, g.dwgNo);
  }
}
