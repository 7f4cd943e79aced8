/** The text shaping of pkg/provider/format.go: the sanitizer that masks the values of
    `creationTimestamp` and `uid` lines in a diff, so that two diffs of the same change read
    alike, and the `> ` quoting of kubectl's output. The sanitizer's regular expression
    `(\s+)(creationTimestamp|uid)[:]([^\n]+)` is written out as a scanner with Go's
    leftmost-first semantics; `\s` is `[\t\n\f\r ]`. */
module Format {
  import opened Wrappers
  import opened GoStrings
  import opened DocSplit

  /** The two keys whose values are masked, in the order the alternation tries them. */
  const TimestampKey: string := "creationTimestamp"
  const UidKey: string := "uid"

  /** What replaces `:` and the value of a masked line. */
  const OmittedValue: string := ": OMITTED"

  predicate IsMaskedKey(key: string) {
    key == TimestampKey || key == UidKey
  }

  /** The key, followed by `:`, that starts at `e`, if any. */
  function KeyAt(s: string, e: nat): (key: Option<string>)
    requires e <= |s|
    ensures key.Some? ==>
      && IsMaskedKey(key.value)
      && e + |key.value| + 1 <= |s| && s[e..e + |key.value| + 1] == key.value + ":"
    ensures key.None? ==> forall k :: IsMaskedKey(k) ==> !HasPrefix(s[e..], k + ":")
  {
    if HasPrefix(s[e..], TimestampKey + ":") then
      assert s[e..][..|TimestampKey| + 1] == s[e..e + |TimestampKey| + 1];
      Some(TimestampKey)
    else if HasPrefix(s[e..], UidKey + ":") then
      assert s[e..][..|UidKey| + 1] == s[e..e + |UidKey| + 1];
      Some(UidKey)
    else None
  }

  /** The end of the line that `k` is on: the next newline at or after `k`, or the end. */
  function LineEnd(s: string, k: nat): (m: nat)
    requires k <= |s|
    ensures k <= m <= |s|
    ensures forall j :: k <= j < m ==> s[j] != '\n'
    ensures m < |s| ==> s[m] == '\n'
    decreases |s| - k
  {
    if k == |s| || s[k] == '\n' then k else LineEnd(s, k + 1)
  }

  /** A match of the sanitizer's expression: the white space runs from its start to
      `spaceEnd`, then comes `key` and `:`, then the value up to `end`. */
  datatype Match = Match(spaceEnd: nat, key: string, end: nat)

  /** The shape of a match found at `i` in `s`: `\s+` is greedy and here also maximal (a
      key starts with a letter, so no shorter run can be followed by one), and `[^\n]+`
      takes the rest of the line, of which there is at least one character. */
  predicate MatchShape(s: string, i: nat, m: Match) {
    && i < m.spaceEnd
    && IsMaskedKey(m.key)
    && m.spaceEnd + |m.key| + 1 < m.end <= |s|
    && (forall j :: i <= j < m.spaceEnd ==> IsRegexSpace(s[j]))
    && s[m.spaceEnd..m.spaceEnd + |m.key| + 1] == m.key + ":"
    && (forall j :: m.spaceEnd + |m.key| + 1 <= j < m.end ==> s[j] != '\n')
    && (m.end < |s| ==> s[m.end] == '\n')
  }

  /** The match of the expression that starts at `i`, if one does. */
  function MatchAt(s: string, i: nat): (r: Option<Match>)
    requires i <= |s|
    ensures r.Some? ==> MatchShape(s, i, r.value)
  {
    if i == |s| || !IsRegexSpace(s[i]) then None
    else
      var e := SpaceRunEnd(s, i);
      match KeyAt(s, e)
      case None => None
      case Some(key) =>
        var v := e + |key| + 1;
        if v < |s| && s[v] != '\n' then Some(Match(e, key, LineEnd(s, v))) else None
  }

  /** The white-space run that starts at `i` ends at the first other character. */
  lemma {:induction false} SpaceRunEndAt(s: string, i: nat, n: nat)
    requires i <= n < |s| && !IsRegexSpace(s[n])
    requires forall j :: i <= j < n ==> IsRegexSpace(s[j])
    ensures SpaceRunEnd(s, i) == n
    decreases n - i
  {
    if i < n { SpaceRunEndAt(s, i + 1, n); }
  }

  /** A masked key followed by `:` is found by `KeyAt`. */
  lemma KeyAtFinds(s: string, e: nat, key: string)
    requires IsMaskedKey(key) && e + |key| + 1 <= |s| && s[e..e + |key| + 1] == key + ":"
    ensures KeyAt(s, e) == Some(key)
  {
    assert HasPrefix(s[e..], key + ":") by {
      assert s[e..][..|key| + 1] == s[e..e + |key| + 1];
    }
    if key == UidKey {
      assert s[e] == 'u';
    }
  }

  /** The line of `k` ends at the first newline from `k` on. */
  lemma {:induction false} LineEndAt(s: string, k: nat, n: nat)
    requires k <= n <= |s| && (n == |s| || s[n] == '\n')
    requires forall j :: k <= j < n ==> s[j] != '\n'
    ensures LineEnd(s, k) == n
    decreases n - k
  {
    if k < n { LineEndAt(s, k + 1, n); }
  }

  /** A run of white space from `i` to `e`, a masked key with `:` at `e`, and a value of at
      least one character running to the end of the line at `n` make a match at `i`. */
  lemma MatchAtLine(s: string, i: nat, e: nat, key: string, n: nat)
    requires i < e && IsMaskedKey(key) && e + |key| + 1 < n <= |s|
    requires forall j :: i <= j < e ==> IsRegexSpace(s[j])
    requires s[e..e + |key| + 1] == key + ":"
    requires forall j :: e + |key| + 1 <= j < n ==> s[j] != '\n'
    requires n == |s| || s[n] == '\n'
    ensures MatchAt(s, i) == Some(Match(e, key, n))
  {
    // The white-space run ends where the key starts: the key begins with a letter.
    assert s[e] == s[e..e + |key| + 1][0] == key[0];
    SpaceRunEndAt(s, i, e);
    KeyAtFinds(s, e, key);
    LineEndAt(s, e + |key| + 1, n);
  }

  /** A text that starts at `i` with `ws`, `key`, `:` and `v` holds each at its place. */
  lemma LineParts(s: string, i: nat, ws: string, key: string, v: string)
    requires i <= |s| && HasPrefix(s[i..], ws + key + ":" + v)
    ensures var e := i + |ws|; var vs := e + |key| + 1; var n := vs + |v|;
      && n <= |s| && s[i..e] == ws && s[e..vs] == key + ":" && s[vs..n] == v
  {
    var x := ws + key + ":" + v;
    var e := i + |ws|;
    var vs := e + |key| + 1;
    var n := vs + |v|;
    assert s[i..][..|x|] == s[i..n];
    SliceOfSlice(s, i, n, 0, |ws|);
    SliceOfSlice(s, i, n, |ws|, |ws| + |key| + 1);
    SliceOfSlice(s, i, n, |ws| + |key| + 1, |x|);
    assert x[0..|ws|] == ws;
    assert x[|ws|..|ws| + |key| + 1] == key + ":";
    assert x[|ws| + |key| + 1..|x|] == v;
  }

  /** Every text that has the regular expression's shape at `i`, with white space `ws`, a
      masked `key` and a value `v` that is non-empty and on one line, is matched at `i`,
      the match running to the end of the line. */
  lemma MatchAtComplete(s: string, i: nat, ws: string, key: string, v: string)
    requires i <= |s| && |ws| > 0 && AllRegexSpace(ws) && IsMaskedKey(key)
    requires |v| > 0 && '\n' !in v
    requires HasPrefix(s[i..], ws + key + ":" + v)
    requires var n := i + |ws + key + ":" + v|; n == |s| || s[n] == '\n'
    ensures MatchAt(s, i) == Some(Match(i + |ws|, key, i + |ws + key + ":" + v|))
  {
    LineParts(s, i, ws, key, v);
    var e := i + |ws|;
    var vs := e + |key| + 1;
    var n := vs + |v|;
    forall j | i <= j < e ensures IsRegexSpace(s[j]) {
      assert s[j] == s[i..e][j - i];
    }
    forall j | vs <= j < n ensures s[j] != '\n' {
      assert s[j] == s[vs..n][j - vs];
    }
    MatchAtLine(s, i, e, key, n);
  }

  /** The sanitized text from position `i` on: each match is replaced by its white space,
      its key and `: OMITTED`, and scanning resumes where the match ended. */
  function SanitizeFrom(s: string, i: nat): (r: string)
    requires i <= |s|
    decreases |s| - i
  {
    if i == |s| then ""
    else
      match MatchAt(s, i)
      case Some(m) => s[i..m.spaceEnd] + m.key + OmittedValue + SanitizeFrom(s, m.end)
      case None => [s[i]] + SanitizeFrom(s, i + 1)
  }

  /** `sanitizeDiff`: every `creationTimestamp` or `uid` line's value becomes `OMITTED`. */
  function SanitizeDiff(raw: string): (r: string)
    ensures (forall j :: 0 <= j < |raw| ==> MatchAt(raw, j).None?) ==> r == raw
  {
    if forall j :: 0 <= j < |raw| ==> MatchAt(raw, j).None? then
      SanitizeFromNoMatch(raw, 0);
      SanitizeFrom(raw, 0)
    else SanitizeFrom(raw, 0)
  }

  /** Where no match starts, the text is copied unchanged. */
  lemma {:induction false} SanitizeFromNoMatch(s: string, i: nat)
    requires i <= |s|
    requires forall j :: i <= j < |s| ==> MatchAt(s, j).None?
    ensures SanitizeFrom(s, i) == s[i..]
    decreases |s| - i
  {
    if i < |s| {
      SanitizeFromNoMatch(s, i + 1);
      assert s[i..] == [s[i]] + s[i + 1..];
    }
  }

  /** A match has a `:` with a character after it. */
  lemma ColonOfMatch(s: string, i: nat)
    requires i <= |s| && MatchAt(s, i).Some?
    ensures var m := MatchAt(s, i).value;
      m.spaceEnd + |m.key| < |s| - 1 && s[m.spaceEnd + |m.key|] == ':'
  {
    var m := MatchAt(s, i).value;
    assert s[m.spaceEnd + |m.key|] == (m.key + ":")[|m.key|];
  }

  /** A text with no `:` holds no match, and is left as it is. */
  lemma SanitizeWithoutColon(s: string)
    requires ':' !in s
    ensures SanitizeDiff(s) == s
  {
    forall j | 0 <= j < |s| ensures MatchAt(s, j).None? {
      if MatchAt(s, j).Some? { ColonOfMatch(s, j); }
    }
    SanitizeFromNoMatch(s, 0);
  }

  /** A masked line, scanned from its start, becomes its white space, its key and
      `: OMITTED`, whatever its value was; the scan goes on at the newline after it. */
  lemma SanitizeLine(s: string, i: nat, ws: string, key: string, v: string)
    requires i <= |s| && |ws| > 0 && AllRegexSpace(ws) && IsMaskedKey(key)
    requires |v| > 0 && '\n' !in v
    requires HasPrefix(s[i..], ws + key + ":" + v)
    requires var n := i + |ws + key + ":" + v|; n == |s| || s[n] == '\n'
    ensures var n := i + |ws + key + ":" + v|;
      SanitizeFrom(s, i) == ws + key + OmittedValue + SanitizeFrom(s, n)
  {
    MatchAtComplete(s, i, ws, key, v);
    LineParts(s, i, ws, key, v);
    var e := i + |ws|;
    var n := i + |ws + key + ":" + v|;
    SanitizeAtMatch(s, i, Match(e, key, n));
    MaskedHead(SanitizeFrom(s, i), s[i..e], ws, key, SanitizeFrom(s, n));
  }

  lemma MaskedHead(r: string, a: string, b: string, key: string, tail: string)
    requires r == a + key + OmittedValue + tail && a == b
    ensures r == b + key + OmittedValue + tail
  {
  }

  /** At a match, the scan emits the match's white space and key and `: OMITTED`. */
  lemma SanitizeAtMatch(s: string, i: nat, m: Match)
    requires i < |s| && MatchAt(s, i) == Some(m)
    ensures m.spaceEnd <= |s| && m.end <= |s|
    ensures SanitizeFrom(s, i) == s[i..m.spaceEnd] + m.key + OmittedValue + SanitizeFrom(s, m.end)
  {
  }

  /** One masked line on its own, whatever its value, always sanitizes to the same text:
      two diffs that differ only in a timestamp or a uid read alike. */
  lemma SanitizeLineStable(ws: string, key: string, v: string)
    requires |ws| > 0 && AllRegexSpace(ws) && IsMaskedKey(key)
    requires |v| > 0 && '\n' !in v
    ensures SanitizeDiff(ws + key + ":" + v) == ws + key + OmittedValue
  {
    var s := ws + key + ":" + v;
    assert s[0..] == s;
    SanitizeLine(s, 0, ws, key, v);
  }

  /** A key with an empty value is not a match (`[^\n]+` needs a character): the line is
      left as it is. */
  lemma SanitizeEmptyValue(ws: string, key: string)
    requires AllRegexSpace(ws) && IsMaskedKey(key)
    ensures SanitizeDiff(ws + key + ":") == ws + key + ":"
  {
    var s := ws + key + ":";
    // The only `:` of the line is its last character, and a match needs one after it.
    forall c | 0 <= c < |s| - 1 ensures s[c] != ':' {
      if c < |ws| { assert IsRegexSpace(s[c]); }
      else { assert s[c] == key[c - |ws|]; }
    }
    forall j | 0 <= j < |s| ensures MatchAt(s, j).None? {
      if MatchAt(s, j).Some? { ColonOfMatch(s, j); }
    }
    SanitizeFromNoMatch(s, 0);
  }

  // ---------------------------------------------------------------- prettyResults

  predicate AllBlank(lines: seq<string>) {
    forall i :: 0 <= i < |lines| ==> lines[i] == ""
  }

  /** The non-empty lines, in their order: the lines `prettyResults` keeps. */
  function NonBlank(lines: seq<string>): (kept: seq<string>)
    ensures |kept| <= |lines|
    ensures forall x :: x in kept <==> x in lines && x != ""
  {
    if |lines| == 0 then []
    else
      assert lines == [lines[0]] + lines[1..];
      if lines[0] == "" then NonBlank(lines[1..]) else [lines[0]] + NonBlank(lines[1..])
  }

  /** The loop of `prettyResults`: the non-empty lines, each quoted with `> `. */
  function QuoteLines(lines: seq<string>): (out: seq<string>)
    ensures |out| == |NonBlank(lines)|
    ensures forall j :: 0 <= j < |out| ==> out[j] == "> " + NonBlank(lines)[j]
    ensures |out| == 0 <==> AllBlank(lines)
    ensures forall j :: 0 <= j < |out| ==>
      |out[j]| > 2 && out[j][..2] == "> " && out[j][2..] in lines
  {
    if |lines| == 0 then []
    else
      var rest := QuoteLines(lines[1..]);
      var kept := NonBlank(lines[1..]);
      assert forall i :: 1 <= i < |lines| ==> lines[i] == lines[1..][i - 1];
      assert forall x :: x in lines[1..] ==> x in lines;
      if lines[0] == "" then
        assert NonBlank(lines) == kept;
        rest
      else
        var q := "> " + lines[0];
        assert q[2..] == lines[0];
        var out := [q] + rest;
        assert NonBlank(lines) == [lines[0]] + kept;
        assert forall j :: 1 <= j < |out| ==> out[j] == rest[j - 1] && NonBlank(lines)[j] == kept[j - 1];
        out
  }

  /** `prettyResults`: kubectl's output with blank lines dropped and every other line
      quoted with `> `. */
  function PrettyResults(raw: string): (r: string)
    ensures r == "" <==> AllBlank(Split(raw, '\n'))
  {
    var lines := Split(raw, '\n');
    var out := QuoteLines(lines);
    if |out| > 0 then
      assert out[0][0] == '>';
      JoinNotEmpty(out, '\n');
      var r := Join(out, '\n');
      assert r != "";
      r
    else
      ""
  }

  lemma JoinNotEmpty(parts: seq<string>, c: char)
    requires |parts| > 0 && |parts[0]| > 0
    ensures Join(parts, c) != ""
  {
    if |parts| > 1 {
      assert Join(parts, c) == parts[0] + [c] + Join(parts[1..], c);
    }
  }

  /** The quoted output splits back into its lines: exactly the non-empty lines of the
      input, in order, each behind `> `. */
  lemma PrettyResultsLines(raw: string)
    requires PrettyResults(raw) != ""
    ensures Split(PrettyResults(raw), '\n') == QuoteLines(Split(raw, '\n'))
  {
    var lines := Split(raw, '\n');
    var out := QuoteLines(lines);
    forall j | 0 <= j < |out| ensures '\n' !in out[j] {
      var line := out[j][2..];
      assert line in lines;
      assert out[j] == "> " + line;
    }
    SplitJoin(out, '\n');
  }

  /** No quoted line is blank: the output has no two newlines in a row and none at its
      ends. */
  lemma PrettyResultsNoBlankLine(raw: string, j: nat)
    requires PrettyResults(raw) != ""
    requires j < |Split(PrettyResults(raw), '\n')|
    ensures HasPrefix(Split(PrettyResults(raw), '\n')[j], "> ")
    ensures |Split(PrettyResults(raw), '\n')[j]| > 2
  {
    PrettyResultsLines(raw);
  }
}
