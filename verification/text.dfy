/** The Python string operations the digest relies on, over `seq<char>`
    (one `char` per Unicode code point, as Python's `str` counts them). */
module Text {

  predicate StartsWith(s: string, prefix: string) {
    |prefix| <= |s| && s[..|prefix|] == prefix
  }

  predicate EndsWith(s: string, suffix: string) {
    |suffix| <= |s| && s[|s| - |suffix|..] == suffix
  }

  lemma EndsWithConcat(a: string, b: string)
    ensures EndsWith(a + b, b)
  {
    assert (a + b)[|a|..] == b;
  }

  /** `t` occurs in `s` starting at index `i`. */
  predicate OccursAt(t: string, s: string, i: int) {
    0 <= i && i + |t| <= |s| && s[i..i + |t|] == t
  }

  /** Python's `t in s` for strings. */
  predicate IsInfix(t: string, s: string) {
    exists i :: 0 <= i <= |s| && OccursAt(t, s, i)
  }

  lemma InfixOfConcat(t: string, a: string, b: string)
    ensures IsInfix(t, a) ==> IsInfix(t, a + b)
    ensures IsInfix(t, b) ==> IsInfix(t, a + b)
  {
    if IsInfix(t, a) {
      var i :| 0 <= i <= |a| && OccursAt(t, a, i);
      assert (a + b)[i..i + |t|] == a[i..i + |t|];
      assert OccursAt(t, a + b, i);
    }
    if IsInfix(t, b) {
      var i :| 0 <= i <= |b| && OccursAt(t, b, i);
      assert (a + b)[|a| + i..|a| + i + |t|] == b[i..i + |t|];
      assert OccursAt(t, a + b, |a| + i);
    }
  }

  lemma InfixOfItself(t: string)
    ensures IsInfix(t, t)
  {
    assert OccursAt(t, t, 0);
  }

  /** Python's `sep.join(parts)`. */
  function Join(sep: string, parts: seq<string>): (r: string)
    ensures |parts| == 0 ==> r == ""
    ensures |parts| > 0 ==> StartsWith(r, parts[0])
    ensures |parts| > 0 ==> EndsWith(r, parts[|parts| - 1])
    ensures |r| == TotalLength(parts) + (if |parts| == 0 then 0 else (|parts| - 1) * |sep|)
  {
    if |parts| == 0 then ""
    else if |parts| == 1 then parts[0]
    else
      var rest := Join(sep, parts[1..]);
      assert parts[1..][|parts| - 2] == parts[|parts| - 1];
      ConcatEnds(parts[0], sep, rest, parts[|parts| - 1]);
      parts[0] + sep + rest
  }

  /** `a + m + b` starts with `a` and ends with whatever `b` ends with. */
  lemma ConcatEnds(a: string, m: string, b: string, last: string)
    ensures StartsWith(a + m + b, a)
    ensures EndsWith(b, last) ==> EndsWith(a + m + b, last)
  {
    var whole := a + m + b;
    assert whole[..|a|] == a;
    if EndsWith(b, last) {
      assert whole[|whole| - |last|..] == b[|b| - |last|..];
    }
  }

  function TotalLength(parts: seq<string>): nat {
    if |parts| == 0 then 0 else |parts[0]| + TotalLength(parts[1..])
  }

  /** Every part occurs in the joined string. */
  lemma {:induction false} JoinContainsPart(sep: string, parts: seq<string>, i: nat)
    requires i < |parts|
    ensures IsInfix(parts[i], Join(sep, parts))
  {
    if |parts| == 1 {
      InfixOfItself(parts[0]);
    } else if i == 0 {
      assert OccursAt(parts[0], Join(sep, parts), 0);
    } else {
      JoinContainsPart(sep, parts[1..], i - 1);
      InfixOfConcat(parts[i], parts[0] + sep, Join(sep, parts[1..]));
    }
  }

  /** Every part occurs in the joined string. */
  lemma JoinContainsAll(sep: string, parts: seq<string>)
    ensures forall i :: 0 <= i < |parts| ==> IsInfix(parts[i], Join(sep, parts))
  {
    forall i | 0 <= i < |parts| ensures IsInfix(parts[i], Join(sep, parts)) {
      JoinContainsPart(sep, parts, i);
    }
  }

  lemma InfixTransitive(t: string, m: string, s: string)
    requires IsInfix(t, m) && IsInfix(m, s)
    ensures IsInfix(t, s)
  {
    var i :| 0 <= i <= |m| && OccursAt(t, m, i);
    var j :| 0 <= j <= |s| && OccursAt(m, s, j);
    SliceOfSlice(s, j, j + |m|, i, i + |t|);
    assert OccursAt(t, s, j + i);
  }

  lemma SliceOfSlice(s: string, a: nat, b: nat, c: nat, d: nat)
    requires a <= b <= |s| && c <= d <= b - a
    ensures s[a..b][c..d] == s[a + c..a + d]
  {
    forall k | 0 <= k < d - c ensures s[a..b][c..d][k] == s[a + c..a + d][k] {
    }
  }

  lemma InfixInMiddle(t: string, a: string, m: string, b: string)
    requires IsInfix(t, m)
    ensures IsInfix(t, a + m + b)
  {
    InfixOfConcat(t, a, m);
    InfixOfConcat(t, a + m, b);
  }

  /** Python's `s.split(c)` for a one-character separator: it always yields at
      least one piece, and `"".split(c) == [""]`. */
  function Split(s: string, c: char): (r: seq<string>)
    ensures |r| >= 1
    ensures forall k :: 0 <= k < |r| ==> c !in r[k]
  {
    if |s| == 0 then [""]
    else
      var rest := Split(s[1..], c);
      if s[0] == c then [""] + rest
      else [[s[0]] + rest[0]] + rest[1..]
  }

  lemma {:induction false} SplitWithoutSeparator(w: string, c: char, tail: string)
    requires c !in w
    ensures Split(w, c) == [w]
    ensures Split(w + [c] + tail, c) == [w] + Split(tail, c)
  {
    if |w| == 0 {
      assert w + [c] + tail == [c] + tail;
      assert ([c] + tail)[1..] == tail;
    } else {
      SplitWithoutSeparator(w[1..], c, tail);
      assert (w + [c] + tail)[1..] == w[1..] + [c] + tail;
      assert [w[0]] + w[1..] == w;
    }
  }

  /** Splitting on the separator undoes `Join` when no part contains it. */
  lemma {:induction false} SplitJoin(parts: seq<string>, c: char)
    requires |parts| > 0
    requires forall k :: 0 <= k < |parts| ==> c !in parts[k]
    ensures Split(Join([c], parts), c) == parts
  {
    if |parts| == 1 {
      SplitWithoutSeparator(parts[0], c, "");
    } else {
      SplitJoin(parts[1..], c);
      SplitWithoutSeparator(parts[0], c, Join([c], parts[1..]));
      assert [parts[0]] + parts[1..] == parts;
    }
  }

  /** The characters Python's `str.strip()` removes (`str.isspace()`). */
  predicate IsSpace(ch: char) {
    ch == '\t' || ch == '\n' || ch == '\U{000B}' || ch == '\U{000C}' || ch == '\r'
    || ('\U{001C}' <= ch <= '\U{001F}') || ch == ' ' || ch == '\U{0085}' || ch == '\U{00A0}'
    || ch == '\U{1680}' || ('\U{2000}' <= ch <= '\U{200A}') || ch == '\U{2028}' || ch == '\U{2029}'
    || ch == '\U{202F}' || ch == '\U{205F}' || ch == '\U{3000}'
  }

  predicate AllSpace(s: string) {
    forall i :: 0 <= i < |s| ==> IsSpace(s[i])
  }

  /** Index of the first non-whitespace character at or after `i`. */
  function SkipSpaceForward(s: string, i: nat): (j: nat)
    requires i <= |s|
    ensures i <= j <= |s|
    ensures forall k :: i <= k < j ==> IsSpace(s[k])
    ensures j == |s| || !IsSpace(s[j])
    decreases |s| - i
  {
    if i == |s| || !IsSpace(s[i]) then i else SkipSpaceForward(s, i + 1)
  }

  /** One past the last non-whitespace character in `s[lo..j]`, or `lo`. */
  function SkipSpaceBackward(s: string, lo: nat, j: nat): (hi: nat)
    requires lo <= j <= |s|
    ensures lo <= hi <= j
    ensures forall k :: hi <= k < j ==> IsSpace(s[k])
    ensures hi == lo || !IsSpace(s[hi - 1])
    decreases j - lo
  {
    if j == lo || !IsSpace(s[j - 1]) then j else SkipSpaceBackward(s, lo, j - 1)
  }

  /** Every character of `s` outside `[lo, hi)` is whitespace. */
  predicate SpaceOutside(s: string, lo: int, hi: int) {
    forall i :: 0 <= i < |s| && !(lo <= i < hi) ==> IsSpace(s[i])
  }

  /** Python's `s.strip()`: the infix left after cutting whitespace on both
      sides; it neither starts nor ends with whitespace. */
  function Strip(s: string): (r: string)
    ensures r == "" || (!IsSpace(r[0]) && !IsSpace(r[|r| - 1]))
    ensures exists lo :: 0 <= lo <= |s| && OccursAt(r, s, lo) && SpaceOutside(s, lo, lo + |r|)
    ensures r == "" <==> AllSpace(s)
  {
    var lo := SkipSpaceForward(s, 0);
    var hi := SkipSpaceBackward(s, lo, |s|);
    assert OccursAt(s[lo..hi], s, lo);
    s[lo..hi]
  }

  /** Python's `s.replace(a, b)` for one-character `a` and `b`. */
  function ReplaceChar(s: string, a: char, b: char): (r: string)
    ensures |r| == |s|
    ensures forall i :: 0 <= i < |s| ==> r[i] == if s[i] == a then b else s[i]
  {
    if |s| == 0 then ""
    else [if s[0] == a then b else s[0]] + ReplaceChar(s[1..], a, b)
  }

  function DigitChar(d: nat): char
    requires d < 10
  {
    ('0' as int + d) as char
  }

  /** Python's `str(n)` for a non-negative integer. */
  function NatToString(n: nat): (r: string)
    ensures |r| >= 1
    ensures forall i :: 0 <= i < |r| ==> '0' <= r[i] <= '9'
    ensures |r| > 1 ==> r[0] != '0'
  {
    if n < 10 then [DigitChar(n)] else NatToString(n / 10) + [DigitChar(n % 10)]
  }

  /** Python's `str(i)` (and f-string interpolation) for an integer. */
  function IntToString(i: int): (r: string)
    ensures |r| >= 1
    ensures (r[0] == '-') <==> i < 0
  {
    if i < 0 then "-" + NatToString(-i) else NatToString(i)
  }

  /** Python's `int(s)` for a string of decimal digits. */
  function DecimalValue(s: string): nat
    requires forall i :: 0 <= i < |s| ==> '0' <= s[i] <= '9'
  {
    if |s| == 0 then 0
    else 10 * DecimalValue(s[..|s| - 1]) + (s[|s| - 1] as int - '0' as int)
  }

  /** Reading the decimal rendering back gives the number. */
  lemma {:induction false} NatToStringRoundTrip(n: nat)
    ensures DecimalValue(NatToString(n)) == n
  {
    var r := NatToString(n);
    if n >= 10 {
      NatToStringRoundTrip(n / 10);
      assert r[..|r| - 1] == NatToString(n / 10);
    }
  }
}
