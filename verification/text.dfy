/** The handful of Python `str` operations the drawing log uses, stated over
    `seq<char>`: case mapping, `strip`, `count`, `find`, `split`, `replace`
    and slicing with possibly negative bounds. */
module Text {

  /* ---------------------------------------------------------------- case */

  /** `str.upper()` on one character (ASCII letters only). */
  function UpperChar(c: char): char {
    if 'a' <= c <= 'z' then (c as int - 32) as char else c
  }

  /** `str.lower()` on one character (ASCII letters only). */
  function LowerChar(c: char): char {
    if 'A' <= c <= 'Z' then (c as int + 32) as char else c
  }

  function Upper(s: string): (r: string)
    ensures |r| == |s|
    ensures forall i :: 0 <= i < |s| ==> r[i] == UpperChar(s[i])
  {
    seq(|s|, i requires 0 <= i < |s| => UpperChar(s[i]))
  }

  function Lower(s: string): (r: string)
    ensures |r| == |s|
    ensures forall i :: 0 <= i < |s| ==> r[i] == LowerChar(s[i])
  {
    seq(|s|, i requires 0 <= i < |s| => LowerChar(s[i]))
  }

  /** Lower-casing after upper-casing is lower-casing. */
  lemma LowerOfUpper(s: string)
    ensures Lower(Upper(s)) == Lower(s)
  {
  }

  /** Lower-casing twice is lower-casing once. */
  lemma LowerTwice(s: string)
    ensures Lower(Lower(s)) == Lower(s)
  {
  }

  /** Upper-casing leaves text without lower-case letters alone. */
  lemma UpperKeeps(s: string)
    requires forall i :: 0 <= i < |s| ==> !('a' <= s[i] <= 'z')
    ensures Upper(s) == s
  {
  }

  /* --------------------------------------------------------------- strip */

  /** Python's `str.isspace()` for a single character. */
  predicate IsSpace(c: char) {
    || c == ' ' || '\t' <= c <= '\r' || '\U{1C}' <= c <= '\U{1F}'
    || c == '\U{85}' || c == '\U{A0}' || c == '\U{1680}'
    || '\U{2000}' <= c <= '\U{200A}' || c == '\U{2028}' || c == '\U{2029}'
    || c == '\U{202F}' || c == '\U{205F}' || c == '\U{3000}'
  }

  /** Drops the leading characters that satisfy `drop`. */
  function LStrip(s: string, drop: char -> bool): (r: string)
    ensures |r| <= |s| && r == s[|s| - |r|..]
    ensures forall i :: 0 <= i < |s| - |r| ==> drop(s[i])
    ensures |r| > 0 ==> !drop(r[0])
    decreases |s|
  {
    if |s| > 0 && drop(s[0]) then LStrip(s[1..], drop) else s
  }

  /** Drops the trailing characters that satisfy `drop`. */
  function RStrip(s: string, drop: char -> bool): (r: string)
    ensures |r| <= |s| && r == s[..|r|]
    ensures forall i :: |r| <= i < |s| ==> drop(s[i])
    ensures |r| > 0 ==> !drop(r[|r| - 1])
    decreases |s|
  {
    if |s| > 0 && drop(s[|s| - 1]) then RStrip(s[..|s| - 1], drop) else s
  }

  /** Every character of `t` is one that stripping removes. */
  predicate AllDropped(t: string, drop: char -> bool) {
    forall i :: 0 <= i < |t| ==> drop(t[i])
  }

  /** How many leading characters `s.strip(chars)` removes. */
  function StripOffset(s: string, drop: char -> bool): (lo: nat)
    ensures lo <= |s|
  {
    |s| - |LStrip(s, drop)|
  }

  /** `s.strip(chars)`: both ends; the result is an infix of `s`. */
  function StripWith(s: string, drop: char -> bool): (r: string)
    ensures StripOffset(s, drop) + |r| <= |s|
    ensures r == s[StripOffset(s, drop)..StripOffset(s, drop) + |r|]
    ensures |r| > 0 ==> !drop(r[0]) && !drop(r[|r| - 1])
    ensures AllDropped(s[..StripOffset(s, drop)], drop)
    ensures AllDropped(s[StripOffset(s, drop) + |r|..], drop)
  {
    var l := LStrip(s, drop);
    RStrip(l, drop)
  }

  /** `s.strip()`: removes Python whitespace at both ends. */
  function Strip(s: string): (r: string)
    ensures StripOffset(s, IsSpace) + |r| <= |s|
    ensures r == s[StripOffset(s, IsSpace)..StripOffset(s, IsSpace) + |r|]
    ensures |r| > 0 ==> !IsSpace(r[0]) && !IsSpace(r[|r| - 1])
    ensures AllDropped(s[..StripOffset(s, IsSpace)], IsSpace)
    ensures AllDropped(s[StripOffset(s, IsSpace) + |r|..], IsSpace)
  {
    StripWith(s, IsSpace)
  }

  /** Text whose ends are kept is left as it is by stripping. */
  lemma StripKeeps(s: string, drop: char -> bool)
    requires |s| > 0 ==> !drop(s[0]) && !drop(s[|s| - 1])
    ensures StripWith(s, drop) == s
  {
  }

  /** Every character of the stripped text occurs in the text. */
  lemma StripInside(s: string, drop: char -> bool, c: char)
    requires c !in s
    ensures c !in StripWith(s, drop)
  {
    var r, lo := StripWith(s, drop), StripOffset(s, drop);
    assert forall i :: 0 <= i < |r| ==> r[i] == s[lo + i];
  }

  /** `not s.strip()`: the text is empty or whitespace only. */
  predicate IsBlank(s: string) {
    Strip(s) == []
  }

  lemma {:induction false} LStripAllDropped(s: string, drop: char -> bool)
    requires forall i :: 0 <= i < |s| ==> drop(s[i])
    ensures LStrip(s, drop) == []
    decreases |s|
  {
    if |s| > 0 {
      LStripAllDropped(s[1..], drop);
    }
  }

  lemma {:induction false} RStripKeepsVisible(s: string, drop: char -> bool)
    requires |s| > 0 && !drop(s[0])
    ensures |RStrip(s, drop)| > 0
    decreases |s|
  {
    if drop(s[|s| - 1]) {
      RStripKeepsVisible(s[..|s| - 1], drop);
    }
  }

  /** Whitespace-only text strips to nothing, and text with a visible
      character does not. */
  lemma BlankIffAllSpace(s: string)
    ensures IsBlank(s) <==> forall i :: 0 <= i < |s| ==> IsSpace(s[i])
  {
    if forall i :: 0 <= i < |s| ==> IsSpace(s[i]) {
      LStripAllDropped(s, IsSpace);
    } else {
      var i :| 0 <= i < |s| && !IsSpace(s[i]);
      VisibleNotBlank(s, i);
    }
  }

  lemma VisibleNotBlank(s: string, i: nat)
    requires i < |s| && !IsSpace(s[i])
    ensures !IsBlank(s)
  {
    var l := LStrip(s, IsSpace);
    assert |s| - |l| <= i;
    assert l[i - (|s| - |l|)] == s[i];
    RStripKeepsVisible(l, IsSpace);
  }

  /** Case mapping neither creates nor removes whitespace. */
  lemma UpperBlank(s: string)
    ensures IsBlank(Upper(s)) <==> IsBlank(s)
  {
    BlankIffAllSpace(s);
    BlankIffAllSpace(Upper(s));
    assert forall i :: 0 <= i < |s| ==> (IsSpace(Upper(s)[i]) <==> IsSpace(s[i]));
  }

  /* ------------------------------------------------------- count & find */

  /** `s.count(c)` for a one-character needle. */
  function Count(s: string, c: char): (n: nat)
    ensures n <= |s|
  {
    if |s| == 0 then 0 else Count(s[..|s| - 1], c) + (if s[|s| - 1] == c then 1 else 0)
  }

  lemma {:induction false} CountAppend(a: string, b: string, c: char)
    ensures Count(a + b, c) == Count(a, c) + Count(b, c)
    decreases |b|
  {
    if |b| == 0 {
      assert a + b == a;
    } else {
      assert (a + b)[..|a + b| - 1] == a + b[..|b| - 1];
      CountAppend(a, b[..|b| - 1], c);
    }
  }

  lemma CountZero(s: string, c: char)
    ensures Count(s, c) == 0 <==> c !in s
  {
    if |s| > 0 {
      CountZero(s[..|s| - 1], c);
      assert s == s[..|s| - 1] + [s[|s| - 1]];
    }
  }

  /** `s.find(c)`: the first index of `c`, or -1. */
  function Find(s: string, c: char): (r: int)
    ensures -1 <= r < |s|
    ensures r >= 0 ==> s[r] == c && c !in s[..r]
    ensures r == -1 <==> c !in s
  {
    if |s| == 0 then -1
    else if s[0] == c then 0
    else
      var k := Find(s[1..], c);
      assert s[1..] == s[1..];
      if k < 0 then -1 else (assert s[..k + 1] == [s[0]] + s[1..][..k]; k + 1)
  }

  /** Finding past a part that does not hold the character. */
  lemma FindAfter(a: string, b: string, c: char)
    requires c !in a && c in b
    ensures Find(a + b, c) == |a| + Find(b, c)
  {
    var s, r, f := a + b, Find(a + b, c), Find(b, c);
    assert s[|a| + f] == c;
    forall i | 0 <= i < r
      ensures s[i] != c
    {
      assert s[..r][i] == s[i];
    }
    forall i | 0 <= i < |a| + f
      ensures s[i] != c
    {
      if i < |a| {
        assert s[i] == a[i];
      } else {
        assert s[i] == b[..f][i - |a|];
      }
    }
  }

  /** `needle` occurs in `s` at position `i`. */
  predicate OccursAt(s: string, needle: string, i: int) {
    0 <= i && i + |needle| <= |s| && s[i..i + |needle|] == needle
  }

  /** `s.find(needle)`: the first position of `needle`, or -1. */
  function FindText(s: string, needle: string): (r: int)
    ensures -1 <= r <= |s|
    ensures r >= 0 ==> OccursAt(s, needle, r)
    ensures forall j :: 0 <= j < |s| + 1 && (r < 0 || j < r) ==> !OccursAt(s, needle, j)
  {
    FindFrom(s, needle, 0)
  }

  function FindFrom(s: string, needle: string, from: nat): (r: int)
    requires from <= |s| + 1
    ensures -1 <= r <= |s|
    ensures r >= 0 ==> from <= r && OccursAt(s, needle, r)
    ensures forall j :: from <= j < |s| + 1 && (r < 0 || j < r) ==> !OccursAt(s, needle, j)
    decreases |s| + 1 - from
  {
    if from + |needle| > |s| then -1
    else if s[from..from + |needle|] == needle then from
    else FindFrom(s, needle, from + 1)
  }

  /* ----------------------------------------------------- split and join */

  /** `s.split(sep)` for a non-empty separator: leftmost, non-overlapping. */
  function Split(s: string, sep: string): (parts: seq<string>)
    requires |sep| > 0
    ensures |parts| >= 1
    decreases |s|
  {
    var i := FindText(s, sep);
    if i < 0 then [s] else [s[..i]] + Split(s[i + |sep|..], sep)
  }

  /** `sep.join(parts)`. */
  function Join(parts: seq<string>, sep: string): string
    decreases |parts|
  {
    if |parts| == 0 then ""
    else if |parts| == 1 then parts[0]
    else parts[0] + sep + Join(parts[1..], sep)
  }

  lemma JoinCons(head: string, tail: seq<string>, sep: string)
    requires |tail| >= 1
    ensures Join([head] + tail, sep) == head + sep + Join(tail, sep)
  {
    assert ([head] + tail)[1..] == tail;
  }

  /** Joining the pieces of a split with the same separator gives the text back. */
  lemma {:induction false} JoinSplit(s: string, sep: string)
    requires |sep| > 0
    ensures Join(Split(s, sep), sep) == s
    decreases |s|
  {
    var i := FindText(s, sep);
    if i >= 0 {
      var rest := s[i + |sep|..];
      JoinSplit(rest, sep);
      JoinCons(s[..i], Split(rest, sep), sep);
      RejoinAt(s, sep, i);
    }
  }

  /** A text is its part before an occurrence, the occurrence, and the
      rest. */
  lemma RejoinAt(s: string, sep: string, i: int)
    requires OccursAt(s, sep, i)
    ensures s[..i] + sep + s[i + |sep|..] == s
  {
    assert s[i..i + |sep|] == sep;
    assert s[..i] + s[i..i + |sep|] == s[..i + |sep|];
    assert s[..i + |sep|] + s[i + |sep|..] == s;
  }

  /** No piece of a split contains the separator. */
  lemma {:induction false} SplitPiecesFree(s: string, sep: string)
    requires |sep| > 0
    ensures forall k :: 0 <= k < |Split(s, sep)| ==> FindText(Split(s, sep)[k], sep) == -1
    decreases |s|
  {
    var i := FindText(s, sep);
    if i >= 0 {
      var rest := s[i + |sep|..];
      SplitPiecesFree(rest, sep);
      var head := s[..i];
      forall j | 0 <= j < |head| + 1
        ensures !OccursAt(head, sep, j)
      {
        if OccursAt(head, sep, j) {
          assert s[j..j + |sep|] == head[j..j + |sep|];
          assert OccursAt(s, sep, j);
          assert false;
        }
      }
      assert Split(s, sep)[0] == head;
      assert forall k :: 1 <= k < |Split(s, sep)| ==> Split(s, sep)[k] == Split(rest, sep)[k - 1];
    }
  }

  lemma OccursAtChar(s: string, c: char, i: int)
    ensures OccursAt(s, [c], i) <==> 0 <= i < |s| && s[i] == c
  {
    if 0 <= i < |s| {
      assert s[i..i + 1] == [s[i]];
    }
  }

  /** Text without the separator splits into itself alone. */
  lemma SplitNone(s: string, c: char)
    requires c !in s
    ensures Split(s, [c]) == [s]
  {
    var i := FindText(s, [c]);
    OccursAtChar(s, c, i);
  }

  /** The first occurrence of a one-character separator ends the first piece. */
  lemma SplitAt(a: string, c: char, b: string)
    requires c !in a
    ensures Split(a + [c] + b, [c]) == [a] + Split(b, [c])
  {
    var s := a + [c] + b;
    assert OccursAt(s, [c], |a|) by {
      assert s[|a|..|a| + 1] == [c];
    }
    var i := FindText(s, [c]);
    OccursAtChar(s, c, i);
    assert forall j :: 0 <= j < |a| ==> s[j] == a[j];
    assert s[..i] == a && s[i + 1..] == b;
  }

  /** Splitting at the first separator when `a` holds none and does not
      run into it. */
  lemma SplitTextAt(a: string, sep: string, b: string)
    requires |sep| > 0 && FindText(a + sep, sep) == |a|
    ensures Split(a + sep + b, sep) == [a] + Split(b, sep)
  {
    var s := a + sep + b;
    assert s[|a|..|a| + |sep|] == sep;
    assert OccursAt(s, sep, |a|);
    forall j | 0 <= j < |a|
      ensures !OccursAt(s, sep, j)
    {
      if OccursAt(s, sep, j) {
        assert (a + sep)[j..j + |sep|] == s[j..j + |sep|];
        assert OccursAt(a + sep, sep, j);
        assert false;
      }
    }
    assert FindText(s, sep) == |a|;
    assert s[..|a|] == a && s[|a| + |sep|..] == b;
  }

  /** Text that does not run into a following separator holds none. */
  lemma SeparatorFree(a: string, sep: string)
    requires |sep| > 0 && FindText(a + sep, sep) == |a|
    ensures Split(a, sep) == [a]
  {
    var j := FindText(a, sep);
    if j >= 0 {
      assert (a + sep)[j..j + |sep|] == a[j..j + |sep|];
      assert OccursAt(a + sep, sep, j);
      assert false;
    }
  }

  /** Joining with one more part at the end. */
  lemma {:induction false} JoinSnoc(parts: seq<string>, last: string, sep: string)
    requires |parts| >= 1
    ensures Join(parts + [last], sep) == Join(parts, sep) + sep + last
    decreases |parts|
  {
    if |parts| == 1 {
      assert (parts + [last])[1..] == [last];
    } else {
      JoinSnoc(parts[1..], last, sep);
      assert (parts + [last])[1..] == parts[1..] + [last];
    }
  }

  lemma {:induction false} SplitJoin(parts: seq<string>, c: char)
    requires |parts| >= 1
    requires forall k :: 0 <= k < |parts| ==> c !in parts[k]
    ensures Split(Join(parts, [c]), [c]) == parts
    decreases |parts|
  {
    if |parts| == 1 {
      SplitNone(parts[0], c);
    } else {
      SplitJoin(parts[1..], c);
      assert Join(parts, [c]) == parts[0] + [c] + Join(parts[1..], [c]);
      SplitAt(parts[0], c, Join(parts[1..], [c]));
      assert parts == [parts[0]] + parts[1..];
    }
  }

  /** Splitting on one character yields one more piece than there are occurrences. */
  lemma {:induction false} SplitCharCount(s: string, c: char)
    ensures |Split(s, [c])| == Count(s, c) + 1
    decreases |s|
  {
    var i := FindText(s, [c]);
    if i < 0 {
      NoCharBefore(s, c, |s|);
      assert s[..|s|] == s;
    } else {
      var rest := s[i + 1..];
      SplitCharCount(rest, c);
      NoCharBefore(s, c, i);
      CountAround(s, c, i);
    }
  }

  /** Before the first occurrence there is none of the character. */
  lemma NoCharBefore(s: string, c: char, i: nat)
    requires i <= |s| && forall j :: 0 <= j < i ==> !OccursAt(s, [c], j)
    ensures Count(s[..i], c) == 0
  {
    forall j | 0 <= j < i
      ensures s[..i][j] != c
    {
      assert !OccursAt(s, [c], j);
      assert s[j..j + 1] == [s[j]];
    }
    CountZero(s[..i], c);
  }

  /** Counting around an occurrence. */
  lemma CountAround(s: string, c: char, i: nat)
    requires i < |s| && s[i] == c
    ensures Count(s, c) == Count(s[..i], c) + 1 + Count(s[i + 1..], c)
  {
    var rest := s[i + 1..];
    assert s == s[..i] + [c] + rest;
    CountAppend(s[..i] + [c], rest, c);
    CountAppend(s[..i], [c], c);
    assert Count([c], c) == 1 by {
      assert [c][..0] == [];
    }
  }

  /* ---------------------------------------------------- Python slicing */

  /** Where a Python slice bound `n` lands in a text of length `len`. */
  function SliceBound(n: int, len: nat): (b: nat)
    ensures b <= len
    ensures 0 <= n <= len ==> b == n
    ensures n > len ==> b == len
    ensures n < 0 && len + n >= 0 ==> b == len + n
    ensures len + n < 0 ==> b == 0
  {
    if n < 0 then (if len + n < 0 then 0 else len + n)
    else if n > len then len
    else n
  }

  /** `s[:n]`. */
  function SliceTo(s: string, n: int): (r: string)
    ensures r == s[..SliceBound(n, |s|)]
  {
    s[..SliceBound(n, |s|)]
  }

  /** Slicing a concatenation at the end of its first part gives the two
      parts back. */
  lemma SliceAtJoint(a: string, b: string)
    ensures SliceTo(a + b, |a|) == a && SliceFrom(a + b, |a|) == b
  {
    assert (a + b)[..|a|] == a;
    assert (a + b)[|a|..] == b;
  }

  /** `(a + b)[:-len(b)]` is `a`. */
  lemma DropSuffix(a: string, b: string, n: int)
    requires |b| > 0 && n == -|b|
    ensures SliceTo(a + b, n) == a
  {
    assert SliceBound(n, |a + b|) == |a|;
    assert (a + b)[..|a|] == a;
  }

  /** `s[n:]`. */
  function SliceFrom(s: string, n: int): (r: string)
    ensures r == s[SliceBound(n, |s|)..]
  {
    s[SliceBound(n, |s|)..]
  }

  /* ------------------------------------------------------------ replace */

  /** `s.replace(a, b, count)` for one-character `a` and `b`: the first `count`
      occurrences of `a` become `b`; a negative count means every occurrence. */
  function Replace(s: string, a: char, b: char, count: int): (r: string)
    ensures |r| == |s|
    decreases |s|
  {
    if |s| == 0 then ""
    else if s[0] == a && count != 0 then [b] + Replace(s[1..], a, b, if count > 0 then count - 1 else count)
    else [s[0]] + Replace(s[1..], a, b, count)
  }

  /** Position by position, `Replace` swaps exactly those occurrences of `a`
      that are preceded by fewer than `count` others. */
  lemma {:induction false} ReplaceAt(s: string, a: char, b: char, count: int, i: int)
    requires 0 <= i < |s|
    ensures Replace(s, a, b, count)[i]
         == if s[i] == a && (count < 0 || Count(s[..i], a) < count) then b else s[i]
    decreases |s|
  {
    var next := if s[0] == a && count != 0 then (if count > 0 then count - 1 else count) else count;
    if i > 0 {
      ReplaceAt(s[1..], a, b, next, i - 1);
      assert s[..i] == [s[0]] + s[1..][..i - 1];
      CountAppend([s[0]], s[1..][..i - 1], a);
      assert Count([s[0]], a) == (if s[0] == a then 1 else 0) by {
        assert [s[0]][..0] == [];
      }
    } else {
      assert s[..0] == [];
    }
  }

  /** Replacing as many occurrences as the first part holds leaves the
      second part alone. */
  lemma ReplaceFirst(a: string, b: string, x: char, y: char, n: int)
    requires n == Count(a, x)
    ensures Replace(a + b, x, y, n) == ReplaceAll(a, x, y) + b
  {
    var s, r := a + b, Replace(a + b, x, y, n);
    forall i | 0 <= i < |s|
      ensures r[i] == (ReplaceAll(a, x, y) + b)[i]
    {
      ReplaceAt(s, x, y, n, i);
      if i < |a| {
        assert s[..i] == a[..i];
        if a[i] == x {
          assert a == a[..i] + ([a[i]] + a[i + 1..]);
          CountAppend(a[..i], [a[i]] + a[i + 1..], x);
          CountAppend([a[i]], a[i + 1..], x);
          assert Count([a[i]], x) == 1 by {
            assert [a[i]][..0] == [];
          }
        }
      } else {
        assert s[..i] == a + b[..i - |a|];
        CountAppend(a, b[..i - |a|], x);
      }
    }
  }

  /** Texts with `x` and `y` in the same places hold as many of each. */
  lemma {:induction false} CountSame(s: string, x: char, t: string, y: char)
    requires |s| == |t|
    requires forall i :: 0 <= i < |s| ==> (s[i] == x <==> t[i] == y)
    ensures Count(s, x) == Count(t, y)
    decreases |s|
  {
    if |s| > 0 {
      CountSame(s[..|s| - 1], x, t[..|t| - 1], y);
    }
  }

  /** `s.replace(a, b)`. */
  function ReplaceAll(s: string, a: char, b: char): (r: string)
    ensures |r| == |s|
    ensures forall i :: 0 <= i < |s| ==> r[i] == if s[i] == a then b else s[i]
  {
    var r := Replace(s, a, b, -1);
    forall i | 0 <= i < |s|
      ensures r[i] == if s[i] == a then b else s[i]
    {
      ReplaceAt(s, a, b, -1, i);
    }
    r
  }
}
