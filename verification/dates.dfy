/** The date column's edit rule: `mm/dd/yyyy` with each field made of
    digits, month 1-12, day 1-31 and year 1998-2099. An accepted date has
    its month and day rewritten to exactly two characters; anything else
    is refused and the cell is left as it was. */
module Dates {
  import opened Results
  import opened Text
  import opened Digits

  /** `x.zfill(3)[-2:]`: the last two characters of `x` padded to three. */
  function TwoDigits(x: string): (r: string)
    ensures |r| == 2
  {
    SliceFrom(ZFill(x, 3), -2)
  }

  /** The three `/`-separated fields pass the digit and range tests. */
  predicate ValidFields(j: seq<string>) {
    && |j| == 3
    && IsDigitText(j[0]) && IsDigitText(j[1]) && IsDigitText(j[2])
    && 1 <= ParseDigits(j[0]) <= 12
    && 1 <= ParseDigits(j[1]) <= 31
    && 1998 <= ParseDigits(j[2]) <= 2099
  }

  /** The date text stored for an edit of the date cell, or `None` when the
      edit is refused. */
  function NormaliseDate(s: string): (r: Option<string>)
  {
    if Count(s, '/') != 2 then None
    else
      var j := Split(s, "/");
      if ValidFields(j) then Some(TwoDigits(j[0]) + "/" + TwoDigits(j[1]) + "/" + j[2])
      else None
  }

  /** A digit text below 100 keeps its value when cut to two characters. */
  lemma TwoDigitsValue(x: string)
    requires IsDigitText(x) && ParseDigits(x) < 100
    ensures AllDigits(TwoDigits(x))
    ensures ParseDigits(TwoDigits(x)) == ParseDigits(x)
  {
    var z := ZFill(x, 3);
    ZFillDigits(x, 3);
    var a, b := z[..|z| - 2], z[|z| - 2..];
    assert z == a + b;
    assert TwoDigits(x) == b;
    assert AllDigits(a) && AllDigits(b) by {
      assert forall i :: 0 <= i < |a| ==> a[i] == z[i];
      assert forall i :: 0 <= i < |b| ==> b[i] == z[|z| - 2 + i];
    }
    ParseAppend(a, b);
    assert Pow10(2) == 100;
    HundredsVanish(ParseDigits(a), ParseDigits(b), ParseDigits(z));
  }

  lemma HundredsVanish(hi: nat, lo: nat, n: nat)
    requires n == hi * 100 + lo && n < 100
    ensures lo == n
  {
  }

  /** Two digits are unchanged by the two-character rewrite. */
  lemma TwoDigitsKeep(x: string)
    requires |x| == 2 && AllDigits(x)
    ensures TwoDigits(x) == x
  {
    assert ZFill(x, 3) == "0" + x;
  }

  lemma NoSlashInDigits(s: string)
    requires AllDigits(s)
    ensures '/' !in s
  {
    assert forall i :: 0 <= i < |s| ==> IsDigit(s[i]) && s[i] != '/';
  }

  lemma ThreeFields(s: string)
    requires Count(s, '/') == 2
    ensures |Split(s, "/")| == 3
  {
    SplitCharCount(s, '/');
  }

  /** An accepted date is `mm/dd/yyyy` where month and day are exactly two
      digits holding the typed values and the year is the typed year field,
      character for character; and only a text with exactly two slashes and
      valid fields is accepted. */
  lemma AcceptedDateShape(s: string)
    requires NormaliseDate(s).Some?
    ensures Count(s, '/') == 2 && ValidFields(Split(s, "/"))
    ensures var r := NormaliseDate(s).value; var j := Split(s, "/");
      && |r| == 6 + |j[2]| && r[2] == '/' && r[5] == '/'
      && AllDigits(r[..2]) && ParseDigits(r[..2]) == ParseDigits(j[0])
      && AllDigits(r[3..5]) && ParseDigits(r[3..5]) == ParseDigits(j[1])
      && r[6..] == j[2]
  {
    ThreeFields(s);
    var j := Split(s, "/");
    var r := NormaliseDate(s).value;
    TwoDigitsValue(j[0]);
    TwoDigitsValue(j[1]);
    assert r[..2] == TwoDigits(j[0]);
    assert r[3..5] == TwoDigits(j[1]);
    assert r[6..] == j[2];
  }

  /** A text with two slashes and valid fields is accepted. */
  lemma ValidDateAccepted(s: string)
    requires Count(s, '/') == 2 && ValidFields(Split(s, "/"))
    ensures NormaliseDate(s).Some?
  {
  }

  /** The three fields of `a/b/c` when none of them holds a slash. */
  lemma SplitDate(a: string, b: string, c: string)
    requires '/' !in a && '/' !in b && '/' !in c
    ensures Split(a + "/" + b + "/" + c, "/") == [a, b, c]
    ensures Count(a + "/" + b + "/" + c, '/') == 2
  {
    var s := a + "/" + b + "/" + c;
    assert s == a + ['/'] + (b + ['/'] + c);
    SplitAt(a, '/', b + ['/'] + c);
    SplitAt(b, '/', c);
    SplitNone(c, '/');
    SplitCharCount(s, '/');
  }

  /** Normalising is idempotent: an accepted date is accepted again as it is. */
  lemma NormaliseDateIdempotent(s: string)
    requires NormaliseDate(s).Some?
    ensures NormaliseDate(NormaliseDate(s).value) == NormaliseDate(s)
  {
    AcceptedDateShape(s);
    var j := Split(s, "/");
    var r := NormaliseDate(s).value;
    var m, d, y := TwoDigits(j[0]), TwoDigits(j[1]), j[2];
    TwoDigitsValue(j[0]);
    TwoDigitsValue(j[1]);
    NoSlashInDigits(m);
    NoSlashInDigits(d);
    NoSlashInDigits(y);
    SplitDate(m, d, y);
    assert r == m + "/" + d + "/" + y;
    TwoDigitsKeep(m);
    TwoDigitsKeep(d);
  }

  /** The stored text for `a/b/c` whose fields hold no slash. */
  lemma NormaliseFields(a: string, b: string, c: string)
    requires '/' !in a && '/' !in b && '/' !in c
    ensures NormaliseDate(a + "/" + b + "/" + c)
         == if ValidFields([a, b, c]) then Some(TwoDigits(a) + "/" + TwoDigits(b) + "/" + c) else None
  {
    SplitDate(a, b, c);
  }

  /** An empty field is refused, since `"".isdigit()` is false. */
  lemma EmptyFieldExample()
    ensures NormaliseDate("11//2020") == None
  {
    assert "11//2020" == "11" + "/" + "" + "/" + "2020";
    NormaliseFields("11", "", "2020");
  }

  /** A thirteenth month is refused. */
  lemma ThirteenthMonthExample()
    ensures NormaliseDate("13/01/2020") == None
  {
    assert "13/01/2020" == "13" + "/" + "01" + "/" + "2020";
    NormaliseFields("13", "01", "2020");
    assert "13"[..1] == "1";
    assert ParseDigits("13") == 13;
    assert !ValidFields(["13", "01", "2020"]);
  }
}
