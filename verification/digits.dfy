/** Decimal text and natural numbers: Python's `str(n)`, `int(s)`,
    `s.zfill(w)` and the drawing log's "whittle off leading zeros" loop. */
module Digits {
  import opened Results
  import opened Text

  predicate IsDigit(c: char) {
    '0' <= c <= '9'
  }

  predicate AllDigits(s: string) {
    forall i :: 0 <= i < |s| ==> IsDigit(s[i])
  }

  /** `s.isdigit()` (and `s.isnumeric()`) restricted to ASCII digits: the
      empty text is not numeric. */
  predicate IsDigitText(s: string) {
    |s| > 0 && AllDigits(s)
  }

  /** Digit text without a superfluous leading zero, as `str(n)` prints it. */
  predicate Canonical(s: string) {
    IsDigitText(s) && (|s| == 1 || s[0] != '0')
  }

  function DigitValue(c: char): nat
    requires IsDigit(c)
  {
    c as int - '0' as int
  }

  function DigitChar(d: nat): char
    requires d < 10
  {
    ('0' as int + d) as char
  }

  function Pow10(n: nat): (p: nat)
    ensures p >= 1
  {
    if n == 0 then 1 else 10 * Pow10(n - 1)
  }

  /** `int(s)` for a text of digits (the empty text reads as 0). */
  function ParseDigits(s: string): (n: nat)
    requires AllDigits(s)
    ensures n < Pow10(|s|)
    decreases |s|
  {
    if |s| == 0 then 0 else 10 * ParseDigits(s[..|s| - 1]) + DigitValue(s[|s| - 1])
  }

  /** `str(n)`: the canonical decimal text that reads back as `n`. */
  function NatStr(n: nat): (r: string)
    ensures Canonical(r)
    ensures ParseDigits(r) == n
    decreases n
  {
    if n < 10 then [DigitChar(n)]
    else
      var r := NatStr(n / 10) + [DigitChar(n % 10)];
      assert r[..|r| - 1] == NatStr(n / 10);
      r
  }

  /** A run of `k` zero characters. */
  function Zeros(k: nat): (z: string)
    ensures |z| == k && AllDigits(z)
    ensures forall i :: 0 <= i < k ==> z[i] == '0'
  {
    seq(k, i => '0')
  }

  /* ------------------------------------------------------------ lemmas */

  lemma AllDigitsAppend(a: string, b: string)
    requires AllDigits(a) && AllDigits(b)
    ensures AllDigits(a + b)
  {
    forall i | 0 <= i < |a + b|
      ensures IsDigit((a + b)[i])
    {
      if i < |a| {
        assert (a + b)[i] == a[i];
      } else {
        assert (a + b)[i] == b[i - |a|];
      }
    }
  }

  lemma {:induction false} ParseAppend(a: string, b: string)
    requires AllDigits(a) && AllDigits(b)
    ensures AllDigits(a + b)
    ensures ParseDigits(a + b) == ParseDigits(a) * Pow10(|b|) + ParseDigits(b)
    decreases |b|
  {
    AllDigitsAppend(a, b);
    if |b| == 0 {
      assert a + b == a;
    } else {
      var b' := b[..|b| - 1];
      var d := DigitValue(b[|b| - 1]);
      assert ParseDigits(a + b) == 10 * ParseDigits(a + b') + d by {
        assert (a + b)[..|a + b| - 1] == a + b';
        assert (a + b)[|a + b| - 1] == b[|b| - 1];
      }
      ParseAppend(a, b');
      assert Pow10(|b|) == 10 * Pow10(|b'|);
      ShiftDigit(ParseDigits(a), Pow10(|b'|), ParseDigits(b'), d);
    }
  }

  /** Appending a digit multiplies by ten and adds it. */
  lemma ShiftDigit(x: nat, p: nat, y: nat, d: nat)
    ensures 10 * (x * p + y) + d == x * (10 * p) + (10 * y + d)
  {
  }

  lemma {:induction false} ParseZerosValue(k: nat)
    ensures ParseDigits(Zeros(k)) == 0
  {
    if k > 0 {
      assert Zeros(k)[..k - 1] == Zeros(k - 1);
      ParseZerosValue(k - 1);
    }
  }

  /** Leading zeros do not change the value of a digit text. */
  lemma ParseLeadingZeros(k: nat, s: string)
    requires AllDigits(s)
    ensures AllDigits(Zeros(k) + s)
    ensures ParseDigits(Zeros(k) + s) == ParseDigits(s)
  {
    ParseAppend(Zeros(k), s);
    ParseZerosValue(k);
  }

  /** A digit text that starts with a non-zero digit is at least 10^(length-1). */
  lemma {:induction false} ParseLowerBound(s: string)
    requires IsDigitText(s) && s[0] != '0'
    ensures ParseDigits(s) >= Pow10(|s| - 1)
    decreases |s|
  {
    if |s| > 1 {
      ParseLowerBound(s[..|s| - 1]);
    }
  }

  /** `str(int(s)) == s` exactly when `s` has no superfluous leading zero. */
  lemma {:induction false} NatStrParse(s: string)
    requires Canonical(s)
    ensures NatStr(ParseDigits(s)) == s
    decreases |s|
  {
    if |s| > 1 {
      var s' := s[..|s| - 1];
      ParseLowerBound(s');
      NatStrParse(s');
      var n := ParseDigits(s);
      assert n / 10 == ParseDigits(s') && n % 10 == DigitValue(s[|s| - 1]);
      assert s == s' + [s[|s| - 1]];
    }
  }

  lemma NatStrLengthAtLeast(n: nat, d: nat)
    requires 1 <= d && n >= Pow10(d - 1)
    ensures |NatStr(n)| >= d
  {
    var s := NatStr(n);
    PowMonotone(if |s| < d - 1 then |s| else d - 1, d - 1);
  }

  lemma NatStrLengthAtMost(n: nat, d: nat)
    requires 1 <= d && n < Pow10(d)
    ensures |NatStr(n)| <= d
  {
    var s := NatStr(n);
    if |s| > 1 {
      ParseLowerBound(s);
      PowMonotone(if d < |s| - 1 then d else |s| - 1, |s| - 1);
    }
  }

  /** The length of `str(n)` is the least `d` with `n < 10^d`. */
  lemma NatStrLength(n: nat, d: nat)
    requires d >= 1 && n < Pow10(d) && (d == 1 || Pow10(d - 1) <= n)
    ensures |NatStr(n)| == d
  {
    NatStrLengthAtMost(n, d);
    if d > 1 {
      NatStrLengthAtLeast(n, d);
    }
  }

  lemma {:induction false} PowMonotone(a: nat, b: nat)
    requires a <= b
    ensures Pow10(a) <= Pow10(b)
    decreases b
  {
    if a < b {
      PowMonotone(a, b - 1);
    }
  }

  /** The result of `str(n)` never starts with a zero unless `n` is 0. */
  lemma NatStrFirst(n: nat)
    requires n > 0
    ensures NatStr(n)[0] != '0'
  {
    var s := NatStr(n);
    if |s| == 1 {
      assert ParseDigits(s) == DigitValue(s[0]) by {
        assert s[..0] == [];
      }
    }
  }

  /* ------------------------------------------------- whittle and zfill */

  predicate IsZero(c: char) {
    c == '0'
  }

  /** The loop in `indexnum2dwgnum`/`generate_nos` that whittles off the
      leading zeros of a text. */
  function StripLeadingZeros(s: string): (r: string)
    ensures |r| <= |s| && r == s[|s| - |r|..]
    ensures forall i :: 0 <= i < |s| - |r| ==> s[i] == '0'
    ensures |r| > 0 ==> r[0] != '0'
  {
    LStrip(s, IsZero)
  }

  /** What was whittled off is zeros, so the text is zeros followed by the rest. */
  lemma StripLeadingZerosSplit(s: string)
    ensures s == Zeros(|s| - |StripLeadingZeros(s)|) + StripLeadingZeros(s)
  {
    var r := StripLeadingZeros(s);
    assert s[..|s| - |r|] == Zeros(|s| - |r|);
    assert s == s[..|s| - |r|] + s[|s| - |r|..];
  }

  /** Text that does not start with a zero is not whittled. */
  lemma StripLeadingZerosNone(s: string)
    requires |s| > 0 && s[0] != '0'
    ensures StripLeadingZeros(s) == s
  {
  }

  lemma StripLeadingZerosValue(s: string)
    requires AllDigits(s)
    ensures AllDigits(StripLeadingZeros(s))
    ensures ParseDigits(StripLeadingZeros(s)) == ParseDigits(s)
  {
    StripLeadingZerosSplit(s);
    ParseLeadingZeros(|s| - |StripLeadingZeros(s)|, StripLeadingZeros(s));
  }

  /** `s.zfill(width)`: left-pads with zeros, after a leading sign if any. */
  function ZFill(s: string, width: nat): (r: string)
    ensures |r| == if |s| >= width then |s| else width
  {
    if |s| >= width then s
    else if |s| > 0 && (s[0] == '+' || s[0] == '-') then [s[0]] + Zeros(width - |s|) + s[1..]
    else Zeros(width - |s|) + s
  }

  /** On digit text, `zfill` keeps the digits and their value. */
  lemma ZFillDigits(s: string, width: nat)
    requires AllDigits(s)
    ensures ZFill(s, width) == Zeros(|ZFill(s, width)| - |s|) + s
    ensures AllDigits(ZFill(s, width))
    ensures ParseDigits(ZFill(s, width)) == ParseDigits(s)
  {
    if |s| >= width {
      assert Zeros(0) + s == s;
    } else if |s| > 0 {
      assert !(s[0] == '+' || s[0] == '-') by {
        assert IsDigit(s[0]);
      }
    }
    ParseLeadingZeros(|ZFill(s, width)| - |s|, s);
  }

  /* ---------------------------------------------------------- Python int */

  /** The digits of a numeral with underscores removed. */
  function DropUnderscores(u: string): (r: string)
    ensures |r| <= |u|
  {
    if |u| == 0 then "" else (if u[0] == '_' then "" else [u[0]]) + DropUnderscores(u[1..])
  }

  /** A numeral `int()` accepts: digits, with single underscores only between digits. */
  predicate WellFormedNumeral(u: string) {
    && |u| > 0 && IsDigit(u[0]) && IsDigit(u[|u| - 1])
    && (forall i :: 0 <= i < |u| ==> IsDigit(u[i]) || u[i] == '_')
    && (forall i :: 0 <= i < |u| - 1 ==> u[i] == '_' ==> u[i + 1] != '_')
  }

  lemma {:induction false} DropUnderscoresDigits(u: string)
    requires forall i :: 0 <= i < |u| ==> IsDigit(u[i]) || u[i] == '_'
    ensures AllDigits(DropUnderscores(u))
    decreases |u|
  {
    if |u| > 0 {
      DropUnderscoresDigits(u[1..]);
    }
  }

  lemma {:induction false} DropUnderscoresNone(u: string)
    requires AllDigits(u)
    ensures DropUnderscores(u) == u
    decreases |u|
  {
    if |u| > 0 {
      DropUnderscoresNone(u[1..]);
      assert u == [u[0]] + u[1..];
    }
  }

  function NumeralValue(u: string): (r: Option<nat>)
    ensures r.Some? <==> WellFormedNumeral(u)
  {
    if WellFormedNumeral(u) then
      DropUnderscoresDigits(u);
      Some(ParseDigits(DropUnderscores(u)))
    else None
  }

  /** Python's `int(s)` on text: surrounding whitespace, an optional sign,
      then a numeral; anything else raises ValueError (here `None`). */
  function PyInt(s: string): Option<int> {
    var t := Strip(s);
    if |t| > 0 && (t[0] == '+' || t[0] == '-') then
      match NumeralValue(t[1..])
      case None => None
      case Some(v) => var w: int := v; Some(if t[0] == '-' then -w else w)
    else
      match NumeralValue(t)
      case None => None
      case Some(v) => Some(v)
  }

  /** A plain digit text reads as its value. */
  lemma PyIntDigits(s: string)
    requires IsDigitText(s)
    ensures PyInt(s) == Some(ParseDigits(s) as int)
  {
    assert !IsSpace(s[0]) && !IsSpace(s[|s| - 1]) by {
      assert IsDigit(s[0]) && IsDigit(s[|s| - 1]);
    }
    assert LStrip(s, IsSpace) == s;
    assert RStrip(s, IsSpace) == s;
    assert Strip(s) == s;
    assert !(s[0] == '+' || s[0] == '-') by {
      assert IsDigit(s[0]);
    }
    assert WellFormedNumeral(s);
    DropUnderscoresNone(s);
  }
}
