/** The converter's preparation of a SolidWorks CSV export: every comma
    meant as a field delimiter becomes `$`, while commas inside the
    description field are kept, so that each line splits into the same
    number of fields. The file is given as its list of lines, each with its
    line break; line 1 (the second line) holds the column names. */
module CsvStable {
  import opened Results
  import opened Text

  /** Delimiters as the converter writes them. */
  function Dollars(s: string): (r: string)
    ensures |r| == |s|
  {
    ReplaceAll(s, ',', '$')
  }

  /** One line, given `n1`, the number of commas in the header, and `n3`,
      the number of delimiters before the description field: all commas
      become `$`; if that leaves a different number of `$` than `n1`, the
      `$` from the (n3+1)-th on go back to commas, as many as there are too
      many. */
  function StableLine(line: string, n1: nat, n3: nat): (r: string)
  {
    var row := Dollars(line);
    var n4 := Count(row, '$');
    if n4 == n1 then row
    else
      var n5 := Find(Replace(row, '$', '?', n3), '$');
      SliceTo(row, n5) + Replace(SliceFrom(row, n5), '$', ',', n4 - n1)
  }

  /** The header counts as the converter takes them, given the word it
      looks for in the upper-cased header. */
  function HeaderCounts(header: string, word: string): (n: (nat, nat))
  {
    var n1 := Count(header, ',');
    var n2 := FindText(Upper(header), word);
    (n1, Count(SliceTo(header, n2), ','))
  }

  /** The converted lines, given the word that marks the description
      column; `None` when there is no header line (the source raises). */
  function StableLines(lines: seq<string>, word: string): (r: Option<seq<string>>)
  {
    if |lines| < 2 then None
    else
      var (n1, n3) := HeaderCounts(lines[1], word);
      Some(seq(|lines|, i requires 0 <= i < |lines| => StableLine(lines[i], n1, n3)))
  }

  /** The conversion as written: it looks for "Description" in the
      upper-cased header. */
  function MakeStable(lines: seq<string>): (r: Option<seq<string>>)
  {
    StableLines(lines, "Description")
  }

  /** The conversion as intended: it looks for "DESCRIPTION". */
  function MakeStableByDescription(lines: seq<string>): (r: Option<seq<string>>)
  {
    StableLines(lines, "DESCRIPTION")
  }

  /* ------------------------------------------------------ text helpers */

  lemma SliceParts(s: string, n: int)
    ensures SliceTo(s, n) + SliceFrom(s, n) == s
  {
  }

  /** Only delimiters change: every character that is neither a comma nor a
      `$` is kept, and those two only turn into each other. */
  lemma StableLineKeeps(line: string, n1: nat, n3: nat)
    ensures |StableLine(line, n1, n3)| == |line|
    ensures forall i :: 0 <= i < |line| && line[i] != ',' && line[i] != '$' ==> StableLine(line, n1, n3)[i] == line[i]
    ensures forall i :: 0 <= i < |line| && (line[i] == ',' || line[i] == '$') ==>
              StableLine(line, n1, n3)[i] == ',' || StableLine(line, n1, n3)[i] == '$'
  {
    var row := Dollars(line);
    var r := StableLine(line, n1, n3);
    StableLineFromRow(line, n1, n3);
    forall i | 0 <= i < |line|
      ensures line[i] != ',' && line[i] != '$' ==> r[i] == line[i]
      ensures line[i] == ',' || line[i] == '$' ==> r[i] == ',' || r[i] == '$'
    {
      assert row[i] == if line[i] == ',' then '$' else line[i];
    }
  }

  /** The rule's result differs from the all-`$` row only in `$` turned
      back into commas. */
  lemma StableLineFromRow(line: string, n1: nat, n3: nat)
    ensures var r, row := StableLine(line, n1, n3), Dollars(line);
      && |r| == |row|
      && forall i :: 0 <= i < |row| ==> r[i] == row[i] || (row[i] == '$' && r[i] == ',')
  {
    var row := Dollars(line);
    var n4 := Count(row, '$');
    if n4 != n1 {
      var n5 := Find(Replace(row, '$', '?', n3), '$');
      StableLineUneven(line, n1, n3);
      RestoreKeeps(row, n5, n4 - n1);
    }
  }

  /** Turning back some `$` after a cut changes nothing but `$` into
      commas. */
  lemma RestoreKeeps(row: string, n5: int, m: int)
    ensures var r := SliceTo(row, n5) + Replace(SliceFrom(row, n5), '$', ',', m);
      && |r| == |row|
      && forall i :: 0 <= i < |row| ==> r[i] == row[i] || (row[i] == '$' && r[i] == ',')
  {
    var head, tail := SliceTo(row, n5), SliceFrom(row, n5);
    SliceParts(row, n5);
    var t := Replace(tail, '$', ',', m);
    forall i | 0 <= i < |tail|
      ensures t[i] == tail[i] || (tail[i] == '$' && t[i] == ',')
    {
      ReplaceAt(tail, '$', ',', m, i);
    }
    forall i | 0 <= i < |row|
      ensures (head + t)[i] == row[i] || (row[i] == '$' && (head + t)[i] == ',')
    {
      if i >= |head| {
        assert (head + t)[i] == t[i - |head|] && row[i] == tail[i - |head|];
      }
    }
  }

  /** A line with as many delimiters as the header has every comma turned
      into `$`. */
  lemma MatchingLineAllDollars(line: string, n1: nat, n3: nat)
    requires Count(Dollars(line), '$') == n1
    ensures StableLine(line, n1, n3) == Dollars(line)
  {
  }

  /** Without `$` in a line, it holds as many `$` after the commas are
      replaced as it held commas. */
  lemma DollarsCount(s: string)
    requires '$' !in s
    ensures Count(Dollars(s), '$') == Count(s, ',')
  {
    CountSame(s, ',', Dollars(s), '$');
  }

  lemma DollarsAppend(a: string, b: string)
    ensures Dollars(a + b) == Dollars(a) + Dollars(b)
  {
  }

  /** Turning the `$` back into commas restores a line without `$`. */
  lemma DollarsBack(s: string)
    requires '$' !in s
    ensures ReplaceAll(Dollars(s), '$', ',') == s
  {
  }

  lemma DollarsFree(s: string)
    requires '$' !in s && ',' !in s
    ensures Dollars(s) == s
  {
  }

  lemma NoDollarLeft(s: string)
    ensures '$' !in ReplaceAll(s, '$', '?')
  {
  }

  /** With the first `n3` delimiters masked, the next one is found at the
      end of `p`. */
  lemma FirstSurplus(p: string, t: string, n3: nat)
    requires '$' !in p && Count(p, ',') == n3 && |t| > 0 && t[0] == ','
    ensures Find(Replace(Dollars(p) + Dollars(t), '$', '?', n3), '$') == |p|
  {
    DollarsCount(p);
    ReplaceFirst(Dollars(p), Dollars(t), '$', '?', n3);
    NoDollarLeft(Dollars(p));
    assert Dollars(t)[0] == '$';
    FindAfter(ReplaceAll(Dollars(p), '$', '?'), Dollars(t), '$');
  }

  lemma SurplusAt(p: string, t: string, n3: nat)
    requires '$' !in p && '$' !in t
    requires Count(p, ',') == n3 && |t| > 0 && t[0] == ','
    ensures Dollars(p + t) == Dollars(p) + Dollars(t)
    ensures Count(Dollars(p + t), '$') == Count(p + t, ',')
    ensures Find(Replace(Dollars(p + t), '$', '?', n3), '$') == |p|
  {
    DollarsAppend(p, t);
    DollarsCount(p + t);
    FirstSurplus(p, t, n3);
  }

  /** The rule on a line with a surplus or shortage of delimiters. */
  lemma StableLineUneven(line: string, n1: nat, n3: nat)
    requires Count(Dollars(line), '$') != n1
    ensures var row := Dollars(line); var n5 := Find(Replace(row, '$', '?', n3), '$');
      StableLine(line, n1, n3) == SliceTo(row, n5) + Replace(SliceFrom(row, n5), '$', ',', Count(row, '$') - n1)
  {
  }

  /** The heart of the rule: when the first part `p` of a line holds `n3`
      commas and the rest starts with a comma, the commas of `p` become `$`
      and the rest has its first surplus delimiters turned back. */
  lemma StableLineAt(p: string, t: string, n1: nat, n3: nat)
    requires '$' !in p && '$' !in t
    requires Count(p, ',') == n3 && |t| > 0 && t[0] == ','
    requires Count(p + t, ',') != n1
    ensures StableLine(p + t, n1, n3) == Dollars(p) + Replace(Dollars(t), '$', ',', Count(p + t, ',') - n1)
  {
    SurplusAt(p, t, n3);
    StableLineUneven(p + t, n1, n3);
    SliceAtJoint(Dollars(p), Dollars(t));
  }

  /** Replacing at least as many occurrences as there are leaves none. */
  lemma ReplaceEvery(s: string, a: char, b: char, n: int)
    requires a != b && Count(s, a) <= n
    ensures a !in Replace(s, a, b, n)
  {
    var r := Replace(s, a, b, n);
    forall i | 0 <= i < |s|
      ensures r[i] != a
    {
      ReplaceAt(s, a, b, n, i);
      if s[i] == a {
        CountAround(s, a, i);
      }
    }
  }

  /** A line holding no more delimiters than `n3`, and not as many as `n1`:
      no `$` is left for `find`, so only the line's last character is looked
      at again, and a line that does not end in a delimiter keeps every `$`.
      In the conversion as written `n3` is `n1` for a header that ends in
      its line break, so this is every line with too few delimiters. */
  lemma StableLineFewer(line: string, n1: nat, n3: nat)
    requires Count(Dollars(line), '$') <= n3 && Count(Dollars(line), '$') != n1
    ensures var row := Dollars(line);
      StableLine(line, n1, n3) == SliceTo(row, -1) + Replace(SliceFrom(row, -1), '$', ',', Count(row, '$') - n1)
    ensures |line| > 0 && line[|line| - 1] != ',' && line[|line| - 1] != '$' ==>
      StableLine(line, n1, n3) == Dollars(line)
  {
    var row := Dollars(line);
    ReplaceEvery(row, '$', '?', n3);
    if |line| > 0 && line[|line| - 1] != ',' && line[|line| - 1] != '$' {
      var last := row[|row| - 1];
      assert last != '$';
      assert SliceFrom(row, -1) == [last];
      assert Replace([last], '$', ',', Count(row, '$') - n1) == [last];
      assert SliceTo(row, -1) + [last] == row;
    }
  }

  /* ------------------------------------------------------- properties */

  /** The conversion keeps the number of lines and, line by line, the
      length and every character other than the delimiters; it fails
      exactly when there is no header line. */
  lemma StableLinesShape(lines: seq<string>, word: string)
    ensures StableLines(lines, word).Some? <==> |lines| >= 2
    ensures StableLines(lines, word).Some? ==>
      var out := StableLines(lines, word).value;
      && |out| == |lines|
      && forall i :: 0 <= i < |lines| ==>
           && |out[i]| == |lines[i]|
           && forall j :: 0 <= j < |lines[i]| && lines[i][j] != ',' && lines[i][j] != '$' ==> out[i][j] == lines[i][j]
  {
    if |lines| >= 2 {
      var (n1, n3) := HeaderCounts(lines[1], word);
      forall i | 0 <= i < |lines|
        ensures |StableLine(lines[i], n1, n3)| == |lines[i]|
        ensures forall j :: 0 <= j < |lines[i]| && lines[i][j] != ',' && lines[i][j] != '$' ==>
                  StableLine(lines[i], n1, n3)[j] == lines[i][j]
      {
        StableLineKeeps(lines[i], n1, n3);
      }
    }
  }

  /** The header line itself, having as many delimiters as it has, has all
      its commas turned into `$`. */
  lemma HeaderAllDollars(lines: seq<string>, word: string)
    requires |lines| >= 2 && '$' !in lines[1]
    ensures StableLines(lines, word).value[1] == Dollars(lines[1])
  {
    DollarsCount(lines[1]);
  }

  lemma HeaderCountsAt(header: string, word: string, n2: int)
    requires FindText(Upper(header), word) == n2
    ensures HeaderCounts(header, word) == (Count(header, ','), Count(SliceTo(header, n2), ','))
  {
  }

  /** Upper-cased text never contains "Description", whose letters after
      the first are lower case. */
  lemma DescriptionNeverFound(header: string)
    ensures FindText(Upper(header), "Description") == -1
  {
    var u := Upper(header);
    forall j | 0 <= j && j + 11 <= |u|
      ensures !OccursAt(u, "Description", j)
    {
      assert u[j..j + 11][1] == u[j + 1] != 'e';
    }
  }

  /** So as written, the number of delimiters before the description is
      taken to be the number of commas in the header short of its last
      character, which is every comma for a header ending in a line break. */
  lemma AsWrittenCountsAllCommas(header: string)
    requires |header| > 0 && header[|header| - 1] != ','
    ensures HeaderCounts(header, "Description") == (Count(header, ','), Count(header, ','))
  {
    DescriptionNeverFound(header);
    HeaderCountsAt(header, "Description", -1);
    assert SliceTo(header, -1) == header[..|header| - 1];
  }

  /** A description without commas: the line has as many delimiters as
      the header, and all of them become `$`. */
  lemma PlainDescription(p: string, d: string, s: string, n1: nat, n3: nat)
    requires '$' !in p && '$' !in d && '$' !in s && ',' !in d
    requires Count(p, ',') == n3 && Count(s, ',') + n3 == n1
    ensures StableLine(p + d + s, n1, n3) == Dollars(p) + d + Dollars(s)
  {
    CountAppend(p + d, s, ',');
    CountAppend(p, d, ',');
    CountZero(d, ',');
    DollarsCount(p + d + s);
    DollarsAppend(p + d, s);
    DollarsAppend(p, d);
    DollarsFree(d);
    MatchingLineAllDollars(p + d + s, n1, n3);
  }

  /** The surplus delimiters of the tail turned back are its first ones. */
  lemma RestoreTail(d1: string, s: string)
    requires '$' !in d1 && '$' !in s
    ensures Replace(Dollars(d1 + s), '$', ',', Count(d1, ',')) == d1 + Dollars(s)
  {
    DollarsAppend(d1, s);
    DollarsCount(d1);
    ReplaceFirst(Dollars(d1), Dollars(s), '$', ',', Count(d1, ','));
    DollarsBack(d1);
  }

  /** The line `q`, then a description tail `d1` starting with a comma,
      then the rest `s`: the description tail keeps its commas. */
  lemma DescriptionTailKept(q: string, d1: string, s: string, n1: nat, n3: nat)
    requires '$' !in q && '$' !in d1 && '$' !in s
    requires |d1| > 0 && d1[0] == ','
    requires Count(q, ',') == n3 && Count(s, ',') + n3 == n1
    ensures StableLine(q + (d1 + s), n1, n3) == Dollars(q) + (d1 + Dollars(s))
  {
    CountAppend(d1, s, ',');
    CountAppend(q, d1 + s, ',');
    CountZero(d1, ',');
    StableLineAt(q, d1 + s, n1, n3);
    RestoreTail(d1, s);
  }

  /** A description with commas, split at its first comma into `d0` and
      `d1`: the surplus delimiters are exactly the commas of `d1`. */
  lemma CommaDescription(p: string, d0: string, d1: string, s: string, n1: nat, n3: nat)
    requires '$' !in p && '$' !in d0 && '$' !in d1 && '$' !in s
    requires ',' !in d0 && |d1| > 0 && d1[0] == ','
    requires Count(p, ',') == n3 && Count(s, ',') + n3 == n1
    ensures StableLine((p + d0) + (d1 + s), n1, n3) == Dollars(p) + (d0 + d1) + Dollars(s)
  {
    CountZero(d0, ',');
    CountAppend(p, d0, ',');
    DollarsAppend(p, d0);
    DollarsFree(d0);
    DescriptionTailKept(p + d0, d1, s, n1, n3);
    Regroup(Dollars(p), d0, d1, Dollars(s));
  }

  lemma Regroup(a: string, b: string, c: string, e: string)
    ensures (a + b) + (c + e) == a + (b + c) + e
  {
  }

  /** The intended effect: a line made of `p`, holding the `n3` delimiters
      before the description, the description `d`, and `s`, holding the
      remaining delimiters, comes out with the delimiters of `p` and `s`
      as `$` and the description as it was, commas included. */
  lemma DescriptionCommasKept(p: string, d: string, s: string, n1: nat, n3: nat)
    requires '$' !in p && '$' !in d && '$' !in s
    requires Count(p, ',') == n3 && Count(s, ',') + n3 == n1
    ensures StableLine(p + d + s, n1, n3) == Dollars(p) + d + Dollars(s)
  {
    if ',' !in d {
      PlainDescription(p, d, s, n1, n3);
    } else {
      var f := Find(d, ',');
      var d0, d1 := d[..f], d[f..];
      assert d == d0 + d1;
      assert p + d + s == (p + d0) + (d1 + s);
      CommaDescription(p, d0, d1, s, n1, n3);
    }
  }

  /* ---------------------------------------------- whole-file statements */

  /** With the description column found in the header at `n2`, every line
      made of the delimiters before the description, the description, and
      the remaining delimiters keeps the description's commas. */
  lemma ByDescriptionKeepsDescriptions(lines: seq<string>, i: nat, p: string, d: string, s: string, n2: int)
    requires |lines| >= 2 && i < |lines|
    requires FindText(Upper(lines[1]), "DESCRIPTION") == n2
    requires lines[i] == p + d + s && '$' !in p && '$' !in d && '$' !in s
    requires Count(p, ',') == Count(SliceTo(lines[1], n2), ',')
    requires Count(p, ',') + Count(s, ',') == Count(lines[1], ',')
    ensures MakeStableByDescription(lines).value[i] == Dollars(p) + d + Dollars(s)
  {
    HeaderCountsAt(lines[1], "DESCRIPTION", n2);
    DescriptionCommasKept(p, d, s, Count(lines[1], ','), Count(p, ','));
  }

  /** As written, with a header ending in a line break, a line with more
      commas than the header keeps the last of them as commas instead: a
      line made of `q`, holding as many commas as the header, and a rest `t`
      starting with a comma comes out as `q` with every comma as `$`, then
      `t` with its first surplus `$` turned back. */
  lemma AsWrittenKeepsLastCommas(lines: seq<string>, i: nat, q: string, t: string)
    requires |lines| >= 2 && i < |lines|
    requires |lines[1]| > 0 && lines[1][|lines[1]| - 1] != ','
    requires lines[i] == q + t && '$' !in q && '$' !in t && |t| > 0 && t[0] == ','
    requires Count(q, ',') == Count(lines[1], ',')
    ensures MakeStable(lines).value[i]
         == Dollars(q) + Replace(Dollars(t), '$', ',', Count(q + t, ',') - Count(lines[1], ','))
  {
    AsWrittenCountsAllCommas(lines[1]);
    CountAppend(q, t, ',');
    CountZero(t, ',');
    StableLineAt(q, t, Count(lines[1], ','), Count(lines[1], ','));
  }

  /* ----------------------------------------------------- the example */

  const ExampleHeader := "DWG,DESCRIPTION,DATE\n"
  const ExampleLine := "1,TANK, 60GAL,X\n"

  /** Text made of comma-free parts joined with commas holds one comma
      fewer than it has parts. */
  lemma CommaCount(parts: seq<string>)
    requires |parts| >= 1 && forall k :: 0 <= k < |parts| ==> ',' !in parts[k]
    ensures Count(Join(parts, ","), ',') == |parts| - 1
  {
    SplitJoin(parts, ',');
    SplitCharCount(Join(parts, ","), ',');
  }

  lemma JoinThree(a: string, b: string, c: string)
    ensures Join([a, b, c], ",") == a + "," + (b + "," + c)
  {
    assert [a, b, c][1..] == [b, c];
    JoinTwo(b, c);
  }

  lemma JoinTwo(a: string, b: string)
    ensures Join([a, b], ",") == a + "," + b
  {
    assert [a, b][1..] == [b];
  }

  lemma ExampleHeaderCommas(h: string)
    requires h == ExampleHeader
    ensures Count(h, ',') == 2
  {
    JoinThree("DWG", "DESCRIPTION", "DATE\n");
    assert h == "DWG" + "," + ("DESCRIPTION" + "," + "DATE\n");
    CommaCount(["DWG", "DESCRIPTION", "DATE\n"]);
  }

  lemma ExampleHeaderFind(h: string)
    requires h == ExampleHeader
    ensures FindText(Upper(h), "DESCRIPTION") == 4
  {
    UpperKeeps(h);
    assert OccursAt(h, "DESCRIPTION", 4) by {
      assert h[4..15] == "DESCRIPTION";
    }
    forall j | 0 <= j < 4
      ensures !OccursAt(h, "DESCRIPTION", j)
    {
      assert h[j..j + 11][1] == h[j + 1];
    }
  }

  lemma ExamplePrefixCommas(h: string)
    requires h == ExampleHeader
    ensures Count(SliceTo(h, 4), ',') == 1
  {
    assert SliceTo(h, 4) == "DWG" + "," + "";
    JoinTwo("DWG", "");
    CommaCount(["DWG", ""]);
  }

  /** `Dollars` read off character by character. */
  lemma DollarsEach(s: string, t: string)
    requires |s| == |t|
    requires forall i :: 0 <= i < |s| ==> t[i] == if s[i] == ',' then '$' else s[i]
    ensures Dollars(s) == t
  {
  }

  /** The example line cut after the header's two commas. */
  lemma ExampleLineAsWritten(line: string, q: string, t: string)
    requires line == ExampleLine && q == "1,TANK, 60GAL" && t == ",X\n"
    ensures line == q + t && '$' !in q && '$' !in t && |t| > 0 && t[0] == ','
    ensures Count(q, ',') == 2 && Count(t, ',') == 1
    ensures Dollars(q) + Replace(Dollars(t), '$', ',', 1) == "1$TANK$ 60GAL,X\n"
  {
    ExampleCommasAsWritten(q, t);
    ExampleDollarsAsWritten(q, t);
  }

  lemma ExampleCommasAsWritten(q: string, t: string)
    requires q == "1,TANK, 60GAL" && t == ",X\n"
    ensures Count(q, ',') == 2 && Count(t, ',') == 1
  {
    JoinThree("1", "TANK", " 60GAL");
    assert q == "1" + "," + ("TANK" + "," + " 60GAL");
    CommaCount(["1", "TANK", " 60GAL"]);
    JoinTwo("", "X\n");
    assert t == "" + "," + "X\n";
    CommaCount(["", "X\n"]);
  }

  lemma ExampleDollarsAsWritten(q: string, t: string)
    requires q == "1,TANK, 60GAL" && t == ",X\n"
    ensures Dollars(q) + Replace(Dollars(t), '$', ',', 1) == "1$TANK$ 60GAL,X\n"
  {
    DollarsEach(q, "1$TANK$ 60GAL");
    DollarsEach(t, "$X\n");
    ExampleRestore();
  }

  lemma ExampleRestore()
    ensures Replace("$X\n", '$', ',', 1) == ",X\n"
  {
    assert "$X\n"[1..] == "X\n";
    assert Replace("X\n", '$', ',', 0) == "X\n";
  }

  /** The example line cut around its description. */
  lemma ExampleLineByDescription(line: string, p: string, d: string, s: string)
    requires line == ExampleLine && p == "1," && d == "TANK, 60GAL" && s == ",X\n"
    ensures line == p + d + s && '$' !in p && '$' !in d && '$' !in s
    ensures Count(p, ',') == 1 && Count(s, ',') == 1
    ensures Dollars(p) + d + Dollars(s) == "1$TANK, 60GAL$X\n"
  {
    ExampleCommasByDescription(p, s);
    ExampleDollarsByDescription(p, d, s);
  }

  lemma ExampleCommasByDescription(p: string, s: string)
    requires p == "1," && s == ",X\n"
    ensures Count(p, ',') == 1 && Count(s, ',') == 1
  {
    JoinTwo("1", "");
    assert p == "1" + "," + "";
    CommaCount(["1", ""]);
    JoinTwo("", "X\n");
    assert s == "" + "," + "X\n";
    CommaCount(["", "X\n"]);
  }

  lemma ExampleDollarsByDescription(p: string, d: string, s: string)
    requires p == "1," && d == "TANK, 60GAL" && s == ",X\n"
    ensures Dollars(p) + d + Dollars(s) == "1$TANK, 60GAL$X\n"
  {
    DollarsEach(p, "1$");
    DollarsEach(s, "$X\n");
  }

  /** "TANK, 60GAL" in the description column: as written, the comma inside
      the description becomes `$` and the delimiter after it stays a comma;
      looking for "DESCRIPTION" keeps the description intact. */
  lemma DescriptionCommaExample(lines: seq<string>)
    requires lines == ["BOM\n", ExampleHeader, ExampleLine]
    ensures MakeStable(lines).value[2] == "1$TANK$ 60GAL,X\n"
    ensures MakeStableByDescription(lines).value[2] == "1$TANK, 60GAL$X\n"
  {
    AsWrittenExample(lines);
    CorrectedExample(lines);
  }

  lemma AsWrittenExample(lines: seq<string>)
    requires lines == ["BOM\n", ExampleHeader, ExampleLine]
    ensures MakeStable(lines).value[2] == "1$TANK$ 60GAL,X\n"
  {
    ExampleHeaderCommas(lines[1]);
    var q, t := "1,TANK, 60GAL", ",X\n";
    ExampleLineAsWritten(lines[2], q, t);
    CountAppend(q, t, ',');
    AsWrittenKeepsLastCommas(lines, 2, q, t);
  }

  lemma CorrectedExample(lines: seq<string>)
    requires lines == ["BOM\n", ExampleHeader, ExampleLine]
    ensures MakeStableByDescription(lines).value[2] == "1$TANK, 60GAL$X\n"
  {
    ExampleHeaderCommas(lines[1]);
    ExampleHeaderFind(lines[1]);
    ExamplePrefixCommas(lines[1]);
    var p, d, s := "1,", "TANK, 60GAL", ",X\n";
    ExampleLineByDescription(lines[2], p, d, s);
    ByDescriptionKeepsDescriptions(lines, 2, p, d, s, 4);
  }
}
