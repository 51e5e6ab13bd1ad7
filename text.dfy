/** The Python string operations the command-line front end relies on:
    strip, lower, isdigit, replace, count, split, join, endswith and
    left-aligned padding, with the behaviour CPython gives them on ASCII text. */
module Text {

  /** A character for which Python's `str.isspace()` holds, within ASCII:
      tab, line feed, vertical tab, form feed, carriage return, the four
      information separators 0x1C-0x1F, and the space. */
  predicate IsSpace(c: char) {
    c == ' ' || '\t' <= c <= '\r' || '\U{1C}' <= c <= '\U{1F}'
  }

  predicate AllSpace(s: string) {
    forall i :: 0 <= i < |s| ==> IsSpace(s[i])
  }

  lemma AllSpaceAppend(a: string, b: string)
    requires AllSpace(a) && AllSpace(b)
    ensures AllSpace(a + b)
  {
    forall i | 0 <= i < |a + b| ensures IsSpace((a + b)[i]) {
      if i < |a| { assert (a + b)[i] == a[i]; } else { assert (a + b)[i] == b[i - |a|]; }
    }
  }

  /** Leading whitespace removed (Python's `str.lstrip()`). */
  function StripLeft(s: string): (r: string)
    ensures |r| <= |s| && r == s[|s| - |r|..]
    ensures AllSpace(s[..|s| - |r|])
    ensures r == [] || !IsSpace(r[0])
  {
    if s != [] && IsSpace(s[0]) then
      var r := StripLeft(s[1..]);
      assert s[..|s| - |r|] == [s[0]] + s[1..][..|s| - 1 - |r|];
      AllSpaceAppend([s[0]], s[1..][..|s| - 1 - |r|]);
      r
    else s
  }

  /** Trailing whitespace removed (Python's `str.rstrip()`). */
  function StripRight(s: string): (r: string)
    ensures |r| <= |s| && r == s[..|r|]
    ensures AllSpace(s[|r|..])
    ensures r == [] || !IsSpace(r[|r| - 1])
  {
    if s != [] && IsSpace(s[|s| - 1]) then
      var init := s[..|s| - 1];
      var r := StripRight(init);
      assert s[|r|..] == init[|r|..] + [s[|s| - 1]];
      AllSpaceAppend(init[|r|..], [s[|s| - 1]]);
      r
    else s
  }

  /** Python's `str.strip()` with no argument. */
  function Strip(s: string): (r: string)
    ensures |r| <= |s|
    ensures r == [] || (!IsSpace(r[0]) && !IsSpace(r[|r| - 1]))
    ensures r == [] <==> AllSpace(s)
    ensures exists k :: Surrounds(s, k, r)
  {
    StripEmpty(s);
    StripSliceExists(s);
    StripRight(StripLeft(s))
  }

  /** `r` sits in `s` at index `k` with only whitespace before and after it. */
  predicate Surrounds(s: string, k: int, r: string) {
    0 <= k <= |s| - |r| && s[k..k + |r|] == r && AllSpace(s[..k]) && AllSpace(s[k + |r|..])
  }

  lemma StripSliceExists(s: string)
    ensures exists k :: Surrounds(s, k, StripRight(StripLeft(s)))
  {
    var l := StripLeft(s);
    SurroundedBySpace(s, l, StripRight(l));
  }

  /** When `l` is `s` after its leading whitespace and `r` is `l` before its
      trailing whitespace, `r` sits in `s` between the two runs. */
  lemma SurroundedBySpace(s: string, l: string, r: string)
    requires |l| <= |s| && l == s[|s| - |l|..] && AllSpace(s[..|s| - |l|])
    requires |r| <= |l| && r == l[..|r|] && AllSpace(l[|r|..])
    ensures Surrounds(s, |s| - |l|, r)
  {
    SliceOfSuffix(s, l, r);
  }

  /** A prefix `r` of a suffix `l` of `s` is a slice of `s`, and what follows
      `r` in `l` is what follows it in `s`. */
  lemma SliceOfSuffix(s: string, l: string, r: string)
    requires |l| <= |s| && l == s[|s| - |l|..]
    requires |r| <= |l| && r == l[..|r|]
    ensures var k := |s| - |l|;
            s[k..k + |r|] == r && l[|r|..] == s[k + |r|..]
  {
    var k := |s| - |l|;
    assert s[k..][..|r|] == s[k..k + |r|];
    assert s[k..][|r|..] == s[k + |r|..];
  }

  lemma {:induction false} StripLeftAllSpace(s: string)
    requires AllSpace(s)
    ensures StripLeft(s) == []
  {
    if s != [] {
      assert AllSpace(s[1..]) by { assert forall i :: 0 <= i < |s| - 1 ==> s[1..][i] == s[i + 1]; }
      StripLeftAllSpace(s[1..]);
    }
  }

  lemma StripEmpty(s: string)
    ensures StripRight(StripLeft(s)) == [] <==> AllSpace(s)
  {
    if StripRight(StripLeft(s)) == [] {
      StripRightEmpty(StripLeft(s));
      StripLeftAllSpaceRest(s);
    }
    if AllSpace(s) {
      StripLeftAllSpace(s);
    }
  }

  lemma StripRightEmpty(l: string)
    requires StripRight(l) == []
    ensures AllSpace(l)
  {
    assert l[|StripRight(l)|..] == l;
  }

  lemma StripLeftAllSpaceRest(s: string)
    requires AllSpace(StripLeft(s))
    ensures AllSpace(s)
  {
    var l := StripLeft(s);
    assert s == s[..|s| - |l|] + l;
    AllSpaceAppend(s[..|s| - |l|], l);
  }

  lemma {:induction false} StripLeftPadded(p: string, t: string)
    requires AllSpace(p)
    requires t == [] || !IsSpace(t[0])
    ensures StripLeft(p + t) == t
  {
    if p != [] {
      assert (p + t)[1..] == p[1..] + t;
      StripLeftPadded(p[1..], t);
    }
  }

  lemma {:induction false} StripRightPadded(t: string, q: string)
    requires AllSpace(q)
    requires t == [] || !IsSpace(t[|t| - 1])
    ensures StripRight(t + q) == t
  {
    if q != [] {
      assert (t + q)[..|t + q| - 1] == t + q[..|q| - 1];
      StripRightPadded(t, q[..|q| - 1]);
    }
  }

  /** Whatever whitespace surrounds a text, stripping gives back exactly the
      text between it: the stripped result is determined by this split. */
  lemma StripUnique(s: string, p: string, r: string, q: string)
    requires s == p + r + q
    requires AllSpace(p) && AllSpace(q)
    requires r == [] || (!IsSpace(r[0]) && !IsSpace(r[|r| - 1]))
    ensures Strip(s) == r
  {
    if r == [] {
      assert AllSpace(s) by {
        forall i | 0 <= i < |s| ensures IsSpace(s[i]) {
          if i < |p| { assert s[i] == p[i]; } else { assert s[i] == q[i - |p|]; }
        }
      }
    } else {
      assert s == p + (r + q);
      StripLeftPadded(p, r + q);
      StripRightPadded(r, q);
    }
  }

  lemma StripIdempotent(s: string)
    ensures Strip(Strip(s)) == Strip(s)
  {
    var r := Strip(s);
    assert StripLeft(r) == r;
    assert StripRight(r) == r;
  }

  /** ASCII case folding, as Python's `str.lower()` does on ASCII letters. */
  function LowerChar(c: char): char {
    if 'A' <= c <= 'Z' then (c as int + 32) as char else c
  }

  function Lower(s: string): (r: string)
    ensures |r| == |s|
  {
    seq(|s|, i requires 0 <= i < |s| => LowerChar(s[i]))
  }

  predicate IsDigit(c: char) {
    '0' <= c <= '9'
  }

  /** Python's `str.isdigit()` on ASCII: non-empty and made only of digits. */
  predicate IsDigits(s: string) {
    |s| > 0 && forall i :: 0 <= i < |s| ==> IsDigit(s[i])
  }

  /** Python's `str.count(c)` for a one-character argument. */
  function Count(s: string, c: char): nat {
    if s == [] then 0 else (if s[0] == c then 1 else 0) + Count(s[1..], c)
  }

  /** Python's `str.replace(c, '')`. */
  function RemoveAll(s: string, c: char): (r: string)
    ensures |r| == |s| - Count(s, c)
    ensures c !in r
  {
    if s == [] then [] else (if s[0] == c then [] else [s[0]]) + RemoveAll(s[1..], c)
  }

  /** Every character that survives the removal of `c` is still in the text,
      so a text whose `c`-free remainder is all digits holds only digits and `c`. */
  lemma {:induction false} RemoveAllKeeps(s: string, c: char, i: int)
    requires 0 <= i < |s| && s[i] != c
    ensures s[i] in RemoveAll(s, c)
  {
    if i > 0 {
      RemoveAllKeeps(s[1..], c, i - 1);
    }
  }

  lemma {:induction false} RemoveAllAbsent(s: string, c: char)
    requires Count(s, c) == 0
    ensures RemoveAll(s, c) == s
  {
    if s != [] {
      RemoveAllAbsent(s[1..], c);
    }
  }

  /** Removal works piece by piece: the removal from a concatenation is the
      concatenation of the removals. */
  lemma {:induction false} RemoveAllAppend(a: string, b: string, c: char)
    ensures RemoveAll(a + b, c) == RemoveAll(a, c) + RemoveAll(b, c)
  {
    if a == [] {
      assert a + b == b;
    } else {
      assert (a + b)[1..] == a[1..] + b;
      RemoveAllAppend(a[1..], b, c);
      assert (a + b)[0] == a[0];
    }
  }

  /** A single character is removed when it is `c` and kept otherwise, so
      with `RemoveAllAppend` every other character survives in order. */
  lemma RemoveAllChar(x: char, c: char)
    ensures RemoveAll([x], c) == if x == c then [] else [x]
  {
    assert [x][1..] == [];
  }

  lemma {:induction false} CountAbsent(s: string, c: char)
    requires c !in s
    ensures Count(s, c) == 0
  {
    if s != [] {
      CountAbsent(s[1..], c);
    }
  }

  lemma {:induction false} CountAppend(a: string, b: string, c: char)
    ensures Count(a + b, c) == Count(a, c) + Count(b, c)
  {
    if a == [] {
      assert a + b == b;
    } else {
      assert (a + b)[1..] == a[1..] + b;
      CountAppend(a[1..], b, c);
    }
  }

  function DigitChar(d: nat): (c: char)
    requires d < 10
    ensures IsDigit(c)
  {
    ('0' as int + d) as char
  }

  function DigitValue(c: char): nat
    requires IsDigit(c)
  {
    c as int - '0' as int
  }

  /** Python's `int(s)` for a text of ASCII digits: the decimal value,
      leading zeros allowed. */
  function DecimalValue(s: string): nat
    requires forall i :: 0 <= i < |s| ==> IsDigit(s[i])
  {
    if s == [] then 0 else DecimalValue(s[..|s| - 1]) * 10 + DigitValue(s[|s| - 1])
  }

  /** Python's `str(n)` for a natural number: its decimal digits, with no
      leading zero. */
  function ShowNat(n: nat): (r: string)
    ensures IsDigits(r)
    ensures r[0] == '0' ==> n == 0
  {
    if n < 10 then [DigitChar(n)] else ShowNat(n / 10) + [DigitChar(n % 10)]
  }

  lemma {:induction false} DecimalValueOfShowNat(n: nat)
    ensures DecimalValue(ShowNat(n)) == n
  {
    if n >= 10 {
      var s := ShowNat(n);
      assert s[..|s| - 1] == ShowNat(n / 10);
      DecimalValueOfShowNat(n / 10);
    }
  }

  /** Index of the first occurrence of `c`. */
  function IndexOf(s: string, c: char): (i: nat)
    requires c in s
    ensures i < |s| && s[i] == c && c !in s[..i]
  {
    if s[0] == c then 0 else 1 + IndexOf(s[1..], c)
  }

  lemma {:induction false} IndexOfAfter(p: string, c: char, t: string)
    requires c !in p
    ensures IndexOf(p + [c] + t, c) == |p|
  {
    if p != [] {
      assert (p + [c] + t)[1..] == p[1..] + [c] + t;
      assert c !in p[1..] by { assert forall i :: 0 <= i < |p| - 1 ==> p[1..][i] == p[i + 1]; }
      IndexOfAfter(p[1..], c, t);
    }
  }

  /** Index of the last occurrence of `c` (Python's `str.rfind`). */
  function LastIndexOf(s: string, c: char): (i: nat)
    requires c in s
    ensures i < |s| && s[i] == c && c !in s[i + 1..]
  {
    if s[|s| - 1] == c then |s| - 1 else LastIndexOf(s[..|s| - 1], c)
  }

  lemma {:induction false} LastIndexOfBefore(p: string, c: char, t: string)
    requires c !in t
    ensures c in p + [c] + t && LastIndexOf(p + [c] + t, c) == |p|
  {
    var s := p + [c] + t;
    assert s[|p|] == c;
    if t != [] {
      var t' := t[..|t| - 1];
      assert s[..|s| - 1] == p + [c] + t';
      assert c !in t' by { assert forall i :: 0 <= i < |t'| ==> t'[i] == t[i]; }
      LastIndexOfBefore(p, c, t');
    }
  }

  /** Python's `s.split(sep)` for a one-character separator: the pieces
      between separators, empty ones included. */
  function Split(s: string, sep: char): (r: seq<string>)
    ensures |r| >= 1
  {
    if s == [] then [[]]
    else
      var rest := Split(s[1..], sep);
      if s[0] == sep then [[]] + rest else [[s[0]] + rest[0]] + rest[1..]
  }

  /** Python's `sep.join(parts)`. */
  function Join(sep: string, parts: seq<string>): string {
    if parts == [] then []
    else if |parts| == 1 then parts[0]
    else parts[0] + sep + Join(sep, parts[1..])
  }

  /** Python's `s.split(sep, 1)` when `sep` occurs: the text before the first
      separator and everything after it, further separators included. */
  function SplitFirst(s: string, sep: char): (r: (string, string))
    requires sep in s
    ensures r.0 + [sep] + r.1 == s
    ensures sep !in r.0
  {
    var i := IndexOf(s, sep);
    assert s == s[..i] + [sep] + s[i + 1..];
    (s[..i], s[i + 1..])
  }

  lemma {:induction false} SplitNoSeparator(p: string, sep: char)
    requires sep !in p
    ensures Split(p, sep) == [p]
  {
    if p != [] {
      assert sep !in p[1..] by { assert forall i :: 0 <= i < |p| - 1 ==> p[1..][i] == p[i + 1]; }
      SplitNoSeparator(p[1..], sep);
      assert [p[0]] + p[1..] == p;
    }
  }

  lemma {:induction false} SplitAfterPiece(p: string, sep: char, t: string)
    requires sep !in p
    ensures Split(p + [sep] + t, sep) == [p] + Split(t, sep)
  {
    if p == [] {
      assert p + [sep] + t == [sep] + t;
      assert ([sep] + t)[1..] == t;
    } else {
      assert (p + [sep] + t)[1..] == p[1..] + [sep] + t;
      assert sep !in p[1..] by { assert forall i :: 0 <= i < |p| - 1 ==> p[1..][i] == p[i + 1]; }
      SplitAfterPiece(p[1..], sep, t);
      assert [p[0]] + p[1..] == p;
    }
  }

  /** Splitting a join gives the parts back when no part holds the separator. */
  lemma {:induction false} SplitJoin(parts: seq<string>, sep: char)
    requires |parts| >= 1
    requires forall i :: 0 <= i < |parts| ==> sep !in parts[i]
    ensures Split(Join([sep], parts), sep) == parts
  {
    if |parts| == 1 {
      SplitNoSeparator(parts[0], sep);
    } else {
      SplitAfterPiece(parts[0], sep, Join([sep], parts[1..]));
      SplitJoin(parts[1..], sep);
    }
  }

  /** The number of pieces is one more than the number of separators. */
  lemma {:induction false} SplitLength(s: string, sep: char)
    ensures |Split(s, sep)| == Count(s, sep) + 1
  {
    if s != [] {
      SplitLength(s[1..], sep);
    }
  }

  /** Joining the pieces with the separator rebuilds the text. */
  lemma {:induction false} JoinSplit(s: string, sep: char)
    ensures Join([sep], Split(s, sep)) == s
  {
    if s != [] {
      var rest := Split(s[1..], sep);
      JoinSplit(s[1..], sep);
      if s[0] == sep {
        JoinPrepend([], rest, [sep]);
      } else {
        JoinMergeFirst([s[0]], rest, [sep]);
      }
      assert s == [s[0]] + s[1..];
    }
  }

  lemma JoinPrepend(p: string, rest: seq<string>, sep: string)
    requires |rest| >= 1
    ensures Join(sep, [p] + rest) == p + sep + Join(sep, rest)
  {
    assert ([p] + rest)[1..] == rest;
  }

  lemma JoinMergeFirst(x: string, rest: seq<string>, sep: string)
    requires |rest| >= 1
    ensures Join(sep, [x + rest[0]] + rest[1..]) == x + Join(sep, rest)
  {
    if |rest| > 1 {
      JoinPrepend(x + rest[0], rest[1..], sep);
      assert rest == [rest[0]] + rest[1..];
      JoinPrepend(rest[0], rest[1..], sep);
    }
  }

  function SumLengths(parts: seq<string>): nat {
    if parts == [] then 0 else |parts[0]| + SumLengths(parts[1..])
  }

  function SumCounts(parts: seq<string>, c: char): nat {
    if parts == [] then 0 else Count(parts[0], c) + SumCounts(parts[1..], c)
  }

  /** A join is as long as its parts plus one separator between each pair. */
  lemma {:induction false} JoinLength(sep: string, parts: seq<string>)
    requires |parts| >= 1
    ensures |Join(sep, parts)| == SumLengths(parts) + |sep| * (|parts| - 1)
  {
    if |parts| > 1 {
      JoinLength(sep, parts[1..]);
    }
  }

  /** The separators a join adds are counted once between each pair of parts. */
  lemma {:induction false} JoinCount(c: char, parts: seq<string>)
    requires |parts| >= 1
    ensures Count(Join([c], parts), c) == SumCounts(parts, c) + |parts| - 1
  {
    if |parts| == 1 {
      assert parts[1..] == [];
    } else {
      CountAppend(parts[0] + [c], Join([c], parts[1..]), c);
      CountAppend(parts[0], [c], c);
      JoinCount(c, parts[1..]);
    }
  }

  lemma {:induction false} SumCountsZero(parts: seq<string>, c: char)
    ensures SumCounts(parts, c) == 0 <==> forall i :: 0 <= i < |parts| ==> c !in parts[i]
  {
    if parts != [] {
      SumCountsZero(parts[1..], c);
      if c in parts[0] {
        var k :| 0 <= k < |parts[0]| && parts[0][k] == c;
        CountAppend(parts[0][..k], parts[0][k..], c);
        assert parts[0] == parts[0][..k] + parts[0][k..];
      } else {
        CountAbsent(parts[0], c);
      }
      forall i | 1 <= i < |parts| ensures parts[i] == parts[1..][i - 1] { }
    }
  }

  /** Splitting a join gives back the parts exactly when no part holds the
      separator: a separator inside a part always yields extra pieces. */
  lemma SplitJoinExactly(parts: seq<string>, sep: char)
    requires |parts| >= 1
    ensures Split(Join([sep], parts), sep) == parts
            <==> forall i :: 0 <= i < |parts| ==> sep !in parts[i]
  {
    if forall i :: 0 <= i < |parts| ==> sep !in parts[i] {
      SplitJoin(parts, sep);
    } else {
      SumCountsZero(parts, sep);
      JoinCount(sep, parts);
      SplitLength(Join([sep], parts), sep);
    }
  }

  function Repeat(c: char, n: nat): (r: string)
    ensures |r| == n && forall i :: 0 <= i < n ==> r[i] == c
  {
    seq(n, _ => c)
  }

  /** Python's `f"{s:<w}"`: the text followed by spaces up to width `w`;
      a text wider than `w` is left whole. */
  function PadRight(s: string, w: nat): (r: string)
    ensures |r| == if |s| < w then w else |s|
    ensures r[..|s|] == s
    ensures forall i :: |s| <= i < |r| ==> r[i] == ' '
  {
    if |s| < w then s + Repeat(' ', w - |s|) else s
  }

  /** The keys of an insertion-ordered dict, in order (`list(d.keys())`). */
  function Keys<V>(ms: seq<(string, V)>): (keys: seq<string>)
    ensures |keys| == |ms|
  {
    seq(|ms|, i requires 0 <= i < |ms| => ms[i].0)
  }

  predicate EndsWith(s: string, suffix: string) {
    |suffix| <= |s| && s[|s| - |suffix|..] == suffix
  }

  predicate StartsWith(s: string, prefix: string) {
    |prefix| <= |s| && s[..|prefix|] == prefix
  }
}
