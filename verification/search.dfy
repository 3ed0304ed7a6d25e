/** The search box: a search text is a list of alternatives separated by
    " or ", each alternative a list of `;`-separated glob patterns that must
    all match. The text is split into that structure and turned into the
    WHERE clause of one SELECT statement. */
module Search {
  import opened Text

  /** The separator between alternatives. */
  const OrWord := " or "

  /** The characters `strip('; ')` removes from the ends of an alternative. */
  predicate IsJunk(c: char) {
    c == ';' || c == ' '
  }

  /** A term with no whitespace at either end. */
  predicate Trimmed(t: string) {
    |t| > 0 ==> !IsSpace(t[0]) && !IsSpace(t[|t| - 1])
  }

  /** Each piece with surrounding whitespace removed. */
  function StripAll(parts: seq<string>): (ts: seq<string>)
    ensures |ts| == |parts|
  {
    seq(|parts|, j requires 0 <= j < |parts| => Strip(parts[j]))
  }

  /** The patterns of one alternative. */
  function Terms(clause: string): (ts: seq<string>)
    ensures |ts| >= 1
  {
    StripAll(Split(StripWith(clause, IsJunk), ";"))
  }

  /** The search text as alternatives of patterns. */
  function ParseSearch(term: string): (q: seq<seq<string>>)
  {
    var raw := Split(term, OrWord);
    seq(|raw|, i requires 0 <= i < |raw| => Terms(raw[i]))
  }

  /* ------------------------------------------------------------ parsing */

  lemma PiecesHaveNoSemicolon(s: string)
    ensures forall j :: 0 <= j < |Split(s, ";")| ==> ';' !in Split(s, ";")[j]
  {
    SplitPiecesFree(s, ";");
    forall j | 0 <= j < |Split(s, ";")|
      ensures ';' !in Split(s, ";")[j]
    {
      var p := Split(s, ";")[j];
      forall i | 0 <= i < |p|
        ensures p[i] != ';'
      {
        OccursAtChar(p, ';', i);
      }
    }
  }

  /** Every pattern of an alternative is free of semicolons and surrounding
      whitespace. */
  lemma TermsClean(clause: string)
    ensures forall j :: 0 <= j < |Terms(clause)| ==> ';' !in Terms(clause)[j] && Trimmed(Terms(clause)[j])
  {
    var parts := Split(StripWith(clause, IsJunk), ";");
    PiecesHaveNoSemicolon(StripWith(clause, IsJunk));
    forall j | 0 <= j < |parts|
      ensures ';' !in Terms(clause)[j] && Trimmed(Terms(clause)[j])
    {
      assert Terms(clause)[j] == Strip(parts[j]);
      StrippedPiece(parts[j]);
    }
  }

  /** A semicolon-free piece stays so when stripped, and loses its end
      whitespace. */
  lemma StrippedPiece(p: string)
    requires ';' !in p
    ensures ';' !in Strip(p) && Trimmed(Strip(p))
  {
    StripInside(p, IsSpace, ';');
  }

  /** There is one alternative per " or "-separated piece of the search
      text, each with at least one pattern, and no pattern contains a
      semicolon or starts or ends with whitespace. */
  lemma ParseShape(term: string)
    ensures var q := ParseSearch(term);
      && |q| == |Split(term, OrWord)| >= 1
      && (forall i :: 0 <= i < |q| ==> |q[i]| >= 1)
      && (forall i, j :: 0 <= i < |q| && 0 <= j < |q[i]| ==> ';' !in q[i][j] && Trimmed(q[i][j]))
  {
    var raw := Split(term, OrWord);
    forall i | 0 <= i < |raw|
      ensures forall j :: 0 <= j < |Terms(raw[i])| ==> ';' !in Terms(raw[i])[j] && Trimmed(Terms(raw[i])[j])
    {
      TermsClean(raw[i]);
    }
  }

  /** Patterns the parser can give back unchanged: non-empty, trimmed and
      free of semicolons. */
  predicate GoodTerms(ts: seq<string>) {
    && |ts| >= 1
    && forall j :: 0 <= j < |ts| ==> |ts[j]| > 0 && Trimmed(ts[j]) && ';' !in ts[j]
  }

  lemma TrimmedKept(t: string)
    requires Trimmed(t)
    ensures Strip(t) == t
  {
    StripKeeps(t, IsSpace);
  }

  lemma {:induction false} JoinEnds(ts: seq<string>)
    requires |ts| >= 1 && forall j :: 0 <= j < |ts| ==> |ts[j]| > 0
    ensures var s := Join(ts, ";"); |s| > 0 && s[0] == ts[0][0] && s[|s| - 1] == ts[|ts| - 1][|ts[|ts| - 1]| - 1]
    decreases |ts|
  {
    if |ts| > 1 {
      var rest := ts[1..];
      JoinEnds(rest);
      assert Join(ts, ";") == ts[0] + ";" + Join(rest, ";");
      assert rest[|rest| - 1] == ts[|ts| - 1];
    }
  }

  /** Patterns written with `;` between them are read back as written. */
  lemma TermsJoin(ts: seq<string>)
    requires GoodTerms(ts)
    ensures Terms(Join(ts, ";")) == ts
  {
    JunkEnds(ts);
    SplitJoin(ts, ';');
    StripAllKept(ts);
  }

  /** Trimmed patterns without `;`, joined with `;`, have nothing for
      `strip('; ')` to remove. */
  lemma JunkEnds(ts: seq<string>)
    requires GoodTerms(ts)
    ensures StripWith(Join(ts, ";"), IsJunk) == Join(ts, ";")
  {
    var s := Join(ts, ";");
    JoinEnds(ts);
    var first, last := ts[0], ts[|ts| - 1];
    assert !IsSpace(first[0]) && ';' != first[0];
    assert !IsSpace(last[|last| - 1]) && ';' != last[|last| - 1];
    StripKeeps(s, IsJunk);
  }

  lemma StripAllKept(ts: seq<string>)
    requires forall j :: 0 <= j < |ts| ==> Trimmed(ts[j])
    ensures StripAll(ts) == ts
  {
    forall j | 0 <= j < |ts|
      ensures Strip(ts[j]) == ts[j]
    {
      TrimmedKept(ts[j]);
    }
  }

  /** The text of an alternative does not contain " or " and does not run
      into the separator that follows it. */
  predicate OrFree(clause: string) {
    FindText(clause + OrWord, OrWord) == |clause|
  }

  /** An alternative the parser gives back as written. */
  predicate GoodClause(ts: seq<string>) {
    GoodTerms(ts) && OrFree(Join(ts, ";"))
  }

  /** The texts of a list of alternatives. */
  function ClauseTexts(q: seq<seq<string>>): (cs: seq<string>)
    ensures |cs| == |q|
    ensures forall i :: 0 <= i < |q| ==> cs[i] == Join(q[i], ";")
  {
    seq(|q|, i requires 0 <= i < |q| => Join(q[i], ";"))
  }

  /** An alternative followed by " or " is read as the first alternative. */
  lemma ParseSearchCons(c: string, rest: string)
    requires OrFree(c)
    ensures ParseSearch(c + OrWord + rest) == [Terms(c)] + ParseSearch(rest)
  {
    SplitTextAt(c, OrWord, rest);
  }

  lemma ParseSearchSingle(c: string)
    requires OrFree(c)
    ensures ParseSearch(c) == [Terms(c)]
  {
    SeparatorFree(c, OrWord);
  }

  lemma ClauseTextsCons(q: seq<seq<string>>)
    requires |q| >= 2
    ensures Join(ClauseTexts(q), OrWord) == Join(q[0], ";") + OrWord + Join(ClauseTexts(q[1..]), OrWord)
  {
    var cs := ClauseTexts(q);
    assert ClauseTexts(q[1..]) == cs[1..];
    assert cs == [cs[0]] + cs[1..];
    JoinCons(cs[0], cs[1..], OrWord);
  }

  /** One alternative in front of others already read back. */
  lemma ParseSearchJoinStep(q: seq<seq<string>>)
    requires |q| >= 2 && GoodClause(q[0])
    requires ParseSearch(Join(ClauseTexts(q[1..]), OrWord)) == q[1..]
    ensures ParseSearch(Join(ClauseTexts(q), OrWord)) == q
  {
    ClauseTextsCons(q);
    TermsJoin(q[0]);
    ParseSearchCons(Join(q[0], ";"), Join(ClauseTexts(q[1..]), OrWord));
    assert q == [q[0]] + q[1..];
  }

  /** A search text written as alternatives joined with " or " and
      patterns joined with `;` is parsed back into those alternatives and
      patterns. */
  lemma {:induction false} ParseSearchJoin(q: seq<seq<string>>)
    requires |q| >= 1
    requires forall i :: 0 <= i < |q| ==> GoodClause(q[i])
    ensures ParseSearch(Join(ClauseTexts(q), OrWord)) == q
    decreases |q|
  {
    assert GoodClause(q[0]);
    if |q| == 1 {
      TermsJoin(q[0]);
      ParseSearchSingle(ClauseTexts(q)[0]);
    } else {
      ParseSearchJoin(q[1..]);
      ParseSearchJoinStep(q);
    }
  }

  /* -------------------------------------------------------- SELECT text */

  const SelectHead := "SELECT dwg, part, description, date, author FROM dwgnos WHERE ("
  const SelectTail := ") ORDER BY dwg_index DESC"
  const AndWord := " AND "
  const OrJoint := ") OR ("

  /** The test for one pattern: any of the five columns matches it. */
  function Condition(t: string): string {
    "(part GLOB '" + t + "' OR description GLOB '" + t + "'\n"
    + "                              OR author GLOB '" + t + "' OR dwg GLOB '" + t + "'\n"
    + "                              OR date GLOB '" + t + "')"
  }

  /** The tests of one alternative's patterns. */
  function Conditions(ts: seq<string>): (cs: seq<string>)
    ensures |cs| == |ts|
  {
    seq(|ts|, j requires 0 <= j < |ts| => Condition(ts[j]))
  }

  lemma ConditionsAt(ts: seq<string>, j: nat)
    requires j < |ts|
    ensures Conditions(ts)[j] == Condition(ts[j])
  {
  }

  /** One alternative: all its patterns' tests, joined with AND. */
  function ClauseCondition(ts: seq<string>): string {
    Join(Conditions(ts), AndWord)
  }

  /** The statement: the alternatives joined with OR, each in parentheses,
      newest drawing first. */
  function SelectText(q: seq<seq<string>>): string {
    SelectHead + Join(ClauseConditions(q), OrJoint) + SelectTail
  }

  /** Each text followed by the separator, concatenated: what a loop that
      appends a separator after every item builds. */
  function Terminated(xs: seq<string>, sep: string): string
    decreases |xs|
  {
    if |xs| == 0 then "" else Terminated(xs[..|xs| - 1], sep) + xs[|xs| - 1] + sep
  }

  /** Dropping the last separator of a terminated list leaves the joined
      list. */
  lemma {:induction false} TerminatedJoin(xs: seq<string>, sep: string)
    requires |xs| >= 1
    ensures Terminated(xs, sep) == Join(xs, sep) + sep
    decreases |xs|
  {
    if |xs| > 1 {
      var init := xs[..|xs| - 1];
      TerminatedJoin(init, sep);
      JoinSnoc(init, xs[|xs| - 1], sep);
      assert init + [xs[|xs| - 1]] == xs;
    }
  }

  /** Appending the next item and the separator extends the terminated
      prefix by one. */
  lemma AppendStep(sql0: string, xs: seq<string>, n: nat, sep: string, sql: string)
    requires n < |xs| && sql == sql0 + Terminated(xs[..n], sep)
    ensures sql + xs[n] + sep == sql0 + Terminated(xs[..n + 1], sep)
  {
    assert xs[..n + 1][..n] == xs[..n];
  }

  /** Cutting the last separator, by a negative slice, off a terminated
      list leaves the joined list. */
  lemma CutTerminated(sql0: string, xs: seq<string>, sep: string, n: int, sql: string)
    requires |xs| >= 1 && |sep| > 0 && n == -|sep|
    requires sql == sql0 + Terminated(xs, sep)
    ensures SliceTo(sql, n) == sql0 + Join(xs, sep)
  {
    TerminatedJoin(xs, sep);
    assert sql == (sql0 + Join(xs, sep)) + sep;
    DropSuffix(sql0 + Join(xs, sep), sep, n);
  }

  /** One alternative's test as the search builds it: each pattern's test
      followed by " AND ", then the last " AND " cut off. */
  method AddClause(sql0: string, ts: seq<string>) returns (sql: string)
    requires |ts| >= 1
    ensures sql == sql0 + ClauseCondition(ts)
  {
    ghost var conds := Conditions(ts);
    sql := sql0;
    var j := 0;
    while j < |ts|
      invariant 0 <= j <= |ts|
      invariant sql == sql0 + Terminated(conds[..j], AndWord)
    {
      ConditionsAt(ts, j);
      AppendStep(sql0, conds, j, AndWord, sql);
      sql := sql + Condition(ts[j]) + AndWord;
      j := j + 1;
    }
    assert conds[..j] == conds;
    CutTerminated(sql0, conds, AndWord, -5, sql);
    sql := SliceTo(sql, -5);
  }

  /** The tests of all alternatives. */
  function ClauseConditions(q: seq<seq<string>>): (cs: seq<string>)
    ensures |cs| == |q|
  {
    seq(|q|, i requires 0 <= i < |q| => ClauseCondition(q[i]))
  }

  lemma ClauseConditionsAt(q: seq<seq<string>>, i: nat)
    requires i < |q|
    ensures ClauseConditions(q)[i] == ClauseCondition(q[i])
  {
  }

  /** Every alternative's test appended, each followed by ") OR (". */
  method AddClauses(sql0: string, q: seq<seq<string>>) returns (sql: string)
    requires forall i :: 0 <= i < |q| ==> |q[i]| >= 1
    ensures sql == sql0 + Terminated(ClauseConditions(q), OrJoint)
  {
    ghost var clauses := ClauseConditions(q);
    sql := sql0;
    var i := 0;
    while i < |q|
      invariant 0 <= i <= |q|
      invariant sql == sql0 + Terminated(clauses[..i], OrJoint)
    {
      ClauseConditionsAt(q, i);
      ghost var before := sql;
      sql := AddClause(sql, q[i]);
      AppendStep(sql0, clauses, i, OrJoint, before);
      sql := sql + OrJoint;
      i := i + 1;
    }
    assert clauses[..i] == clauses;
  }

  /** The statement built from the parsed alternatives: the alternatives'
      tests, then the last ") OR (" cut off and the ordering added. The
      cuts rely on every alternative having a pattern and there being an
      alternative, which parsing guarantees. */
  method BuildSelect(q: seq<seq<string>>) returns (sql: string)
    requires |q| >= 1 && forall i :: 0 <= i < |q| ==> |q[i]| >= 1
    ensures sql == SelectText(q)
  {
    sql := AddClauses(SelectHead, q);
    CutTerminated(SelectHead, ClauseConditions(q), OrJoint, -6, sql);
    sql := SliceTo(sql, -6) + SelectTail;
  }

  /** The statement the search runs for a search text. */
  method SearchSelect(term: string) returns (sql: string)
    ensures sql == SelectText(ParseSearch(term))
  {
    var q := ParseSearch(term);
    ParseShape(term);
    sql := BuildSelect(q);
  }
}
