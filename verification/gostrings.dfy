/** The pieces of Go's `strings` and `bytes` packages that the core relies on, with the
    Go semantics spelled out: `TrimSpace`, `Trim`, `TrimRight`, `Index`, `Split`, `SplitN`,
    `Join`, `HasPrefix`, `HasSuffix`, `Contains`, and the `<` order on strings.

    A Go string is a byte sequence; here it is a sequence of characters. The two agree on
    ASCII text, which is what manifests, kubectl tables and identifiers hold in practice. */
module GoStrings {

  /** `unicode.IsSpace`, the predicate behind `strings.TrimSpace` and `bytes.TrimSpace`. */
  predicate IsSpace(c: char) {
    || c == ' ' || c == '\t' || c == '\n' || c == '\U{0B}' || c == '\U{0C}' || c == '\r'
    || c == '\U{85}' || c == '\U{A0}' || c == '\U{1680}'
    || ('\U{2000}' <= c <= '\U{200A}')
    || c == '\U{2028}' || c == '\U{2029}' || c == '\U{202F}' || c == '\U{205F}' || c == '\U{3000}'
  }

  predicate IsBlank(c: char) {
    c == ' '
  }

  /** Drops the longest prefix whose characters all satisfy `p`. */
  function TrimLeftFunc(s: string, p: char -> bool): (r: string)
    ensures |r| <= |s| && r == s[|s| - |r|..]
    ensures forall i :: 0 <= i < |s| - |r| ==> p(s[i])
    ensures |r| > 0 ==> !p(r[0])
  {
    if |s| == 0 || !p(s[0]) then s else TrimLeftFunc(s[1..], p)
  }

  /** Drops the longest suffix whose characters all satisfy `p`. */
  function TrimRightFunc(s: string, p: char -> bool): (r: string)
    ensures |r| <= |s| && r == s[..|r|]
    ensures forall i :: |r| <= i < |s| ==> p(s[i])
    ensures |r| > 0 ==> !p(r[|r| - 1])
  {
    if |s| == 0 || !p(s[|s| - 1]) then s else TrimRightFunc(s[..|s| - 1], p)
  }

  /** `strings.TrimSpace`: the slice of `s` between its leading and trailing white space. */
  function TrimSpace(s: string): (r: string)
    ensures var k := LeadingSpace(s);
      && k + |r| <= |s| && r == s[k..k + |r|]
      && (forall i :: 0 <= i < k ==> IsSpace(s[i]))
      && (forall i :: k + |r| <= i < |s| ==> IsSpace(s[i]))
    ensures |r| > 0 ==> !IsSpace(r[0]) && !IsSpace(r[|r| - 1])
  {
    TrimRightFunc(TrimLeftFunc(s, IsSpace), IsSpace)
  }

  /** How many white-space characters `strings.TrimSpace` removes at the front. */
  function LeadingSpace(s: string): (k: nat)
    ensures k <= |s|
  {
    |s| - |TrimLeftFunc(s, IsSpace)|
  }

  /** Leading white space does not change what `strings.TrimSpace` keeps. */
  lemma TrimSpaceSkip(s: string)
    requires |s| > 0 && IsSpace(s[0])
    ensures TrimSpace(s) == TrimSpace(s[1..])
  {
    assert TrimLeftFunc(s, IsSpace) == TrimLeftFunc(s[1..], IsSpace);
  }

  /** A string that starts with content keeps that first character when trimmed. */
  lemma TrimSpaceHead(s: string)
    requires |s| > 0 && !IsSpace(s[0])
    ensures |TrimSpace(s)| > 0 && TrimSpace(s)[0] == s[0]
  {
    assert TrimLeftFunc(s, IsSpace) == s;
  }

  /** `strings.TrimRight(s, " ")`. */
  function TrimRightBlanks(s: string): (r: string)
    ensures |r| <= |s| && r == s[..|r|]
    ensures forall i :: |r| <= i < |s| ==> s[i] == ' '
    ensures |r| > 0 ==> r[|r| - 1] != ' '
  {
    TrimRightFunc(s, IsBlank)
  }

  /** `strings.Trim(s, " ")`. */
  function TrimBlanks(s: string): (r: string)
    ensures |r| > 0 ==> r[0] != ' ' && r[|r| - 1] != ' '
  {
    TrimRightFunc(TrimLeftFunc(s, IsBlank), IsBlank)
  }

  /** `strings.Index(s, string(c))`: the first position of `c`, or -1. */
  function IndexOf(s: string, c: char): (r: int)
    ensures -1 <= r < |s|
    ensures r == -1 <==> c !in s
    ensures r >= 0 ==> s[r] == c && c !in s[..r]
  {
    if |s| == 0 then -1
    else if s[0] == c then 0
    else
      var k := IndexOf(s[1..], c);
      assert s[1..][..k + 1] == s[1..k + 2] by { if k >= 0 { assert k + 1 <= |s[1..]|; } }
      if k == -1 then -1 else k + 1
  }

  /** `strings.Join(parts, string(c))`. */
  function Join(parts: seq<string>, c: char): string {
    if |parts| == 0 then ""
    else if |parts| == 1 then parts[0]
    else parts[0] + [c] + Join(parts[1..], c)
  }

  /** `strings.Split(s, string(c))`: the pieces between the occurrences of `c`. */
  function Split(s: string, c: char): (parts: seq<string>)
    ensures |parts| >= 1
    ensures forall i :: 0 <= i < |parts| ==> c !in parts[i]
    ensures Join(parts, c) == s
    decreases |s|
  {
    var i := IndexOf(s, c);
    if i < 0 then [s]
    else
      var rest := Split(s[i + 1..], c);
      assert s == s[..i] + [c] + s[i + 1..];
      [s[..i]] + rest
  }

  /** `strings.SplitN(s, string(c), n)` for `n >= 1`: at most `n` pieces, the last one
      keeping every remaining occurrence of `c`. */
  function SplitN(s: string, c: char, n: nat): (parts: seq<string>)
    requires n >= 1
    ensures 1 <= |parts| <= n
    ensures Join(parts, c) == s
    ensures forall i :: 0 <= i < |parts| - 1 ==> c !in parts[i]
    ensures |parts| < n ==> c !in parts[|parts| - 1]
    decreases n
  {
    var i := IndexOf(s, c);
    if n == 1 || i < 0 then [s]
    else
      var rest := SplitN(s[i + 1..], c, n - 1);
      var parts := [s[..i]] + rest;
      assert parts[1..] == rest;
      assert Join(parts, c) == s[..i] + [c] + Join(rest, c);
      assert s == s[..i] + [c] + s[i + 1..];
      parts
  }

  /** Split undoes Join when no piece contains the separator: the two are inverses. */
  lemma {:induction false} SplitJoin(parts: seq<string>, c: char)
    requires |parts| >= 1
    requires forall i :: 0 <= i < |parts| ==> c !in parts[i]
    ensures Split(Join(parts, c), c) == parts
    decreases |parts|
  {
    if |parts| == 1 {
      assert IndexOf(parts[0], c) == -1;
    } else {
      var s := Join(parts, c);
      assert s == parts[0] + [c] + Join(parts[1..], c);
      var i := IndexOf(s, c);
      assert s[|parts[0]|] == c;
      FirstOccurrence(parts[0], Join(parts[1..], c), c);
      assert i == |parts[0]|;
      assert s[..i] == parts[0];
      assert s[i + 1..] == Join(parts[1..], c);
      SplitJoin(parts[1..], c);
    }
  }

  /** When `a` does not hold `c`, the first `c` in `a + [c] + b` sits right after `a`. */
  lemma {:induction false} FirstOccurrence(a: string, b: string, c: char)
    requires c !in a
    ensures IndexOf(a + [c] + b, c) == |a|
    decreases |a|
  {
    if |a| > 0 {
      assert (a + [c] + b)[1..] == a[1..] + [c] + b;
      FirstOccurrence(a[1..], b, c);
    }
  }

  predicate HasPrefix(s: string, prefix: string) {
    |prefix| <= |s| && s[..|prefix|] == prefix
  }

  predicate HasSuffix(s: string, suffix: string) {
    |suffix| <= |s| && s[|s| - |suffix|..] == suffix
  }

  /** `strings.Contains(s, sub)`: some position of `s` starts a copy of `sub`. */
  predicate Contains(s: string, sub: string)
    decreases |s|
  {
    HasPrefix(s, sub) || (|s| > 0 && Contains(s[1..], sub))
  }

  /** Go's `<` on strings: lexicographic order, a proper prefix coming first. */
  predicate Less(a: string, b: string)
    decreases |a|
  {
    if |a| == 0 then |b| > 0
    else if |b| == 0 then false
    else if a[0] != b[0] then a[0] < b[0]
    else Less(a[1..], b[1..])
  }

  lemma {:induction false} LessIrreflexive(a: string)
    ensures !Less(a, a)
    decreases |a|
  {
    if |a| > 0 {
      LessIrreflexive(a[1..]);
    }
  }

  lemma {:induction false} LessTransitive(a: string, b: string, c: string)
    requires Less(a, b) && Less(b, c)
    ensures Less(a, c)
    decreases |a|
  {
    if |a| > 0 && a[0] == b[0] && b[0] == c[0] {
      LessTransitive(a[1..], b[1..], c[1..]);
    }
  }

  /** Any two distinct strings are ordered one way or the other. */
  lemma {:induction false} LessTotal(a: string, b: string)
    requires a != b
    ensures Less(a, b) || Less(b, a)
    decreases |a|
  {
    if |a| > 0 && |b| > 0 && a[0] == b[0] {
      assert a == [a[0]] + a[1..] && b == [b[0]] + b[1..];
      LessTotal(a[1..], b[1..]);
    }
  }

  lemma {:induction false} LessAsymmetric(a: string, b: string)
    requires Less(a, b)
    ensures !Less(b, a)
  {
    if Less(b, a) {
      LessTransitive(a, b, a);
      LessIrreflexive(a);
    }
  }

  /** Between two strings of the same length the order is decided there, whatever follows. */
  lemma {:induction false} LessExtend(a: string, b: string, x: string, y: string)
    requires |a| == |b| && Less(a, b)
    ensures Less(a + x, b + y)
    decreases |a|
  {
    if a[0] == b[0] {
      assert (a + x)[1..] == a[1..] + x;
      assert (b + y)[1..] == b[1..] + y;
      LessExtend(a[1..], b[1..], x, y);
    }
  }

  /** A slice of a slice is a slice of the whole. */
  lemma SliceOfSlice(s: string, a: nat, b: nat, i: nat, j: nat)
    requires a <= b <= |s| && i <= j <= b - a
    ensures s[a..b][i..j] == s[a + i..a + j]
  {
    assert |s[a..b][i..j]| == j - i;
    forall t | 0 <= t < j - i ensures s[a..b][i..j][t] == s[a + i..a + j][t] {
      assert s[a..b][i..j][t] == s[a + i + t];
    }
  }

  /** Cutting a suffix at two points gives three consecutive slices. */
  lemma SliceThree(s: string, a: nat, b: nat, c: nat)
    requires a <= b <= c <= |s|
    ensures s[a..] == s[a..b] + s[b..c] + s[c..]
  {
    assert |s[a..]| == |s[a..b] + s[b..c] + s[c..]|;
    forall t | 0 <= t < |s| - a ensures s[a..][t] == (s[a..b] + s[b..c] + s[c..])[t] {
      if t < b - a { assert (s[a..b] + s[b..c] + s[c..])[t] == s[a..b][t]; }
      else if t < c - a { assert (s[a..b] + s[b..c] + s[c..])[t] == s[b..c][t - (b - a)]; }
      else { assert (s[a..b] + s[b..c] + s[c..])[t] == s[c..][t - (c - a)]; }
    }
  }
}
