/** The multi-document splitter of ordered_client.go: `sep.Split(text, -1)` with
    `sep = (?:^|\s*\n)---\s*`, written out as a scanner with the regular expression's
    leftmost-first semantics (Go's `\s` is `[\t\n\f\r ]`, and `^` is the start of the text). */
module DocSplit {
  import opened Wrappers
  import opened GoStrings

  predicate IsRegexSpace(c: char) {
    c == '\t' || c == '\n' || c == '\U{0C}' || c == '\r' || c == ' '
  }

  predicate AllRegexSpace(s: string) {
    forall i :: 0 <= i < |s| ==> IsRegexSpace(s[i])
  }

  /** The end of the longest run of `\s` characters starting at `i` (greedy `\s*`). */
  function SpaceRunEnd(s: string, i: nat): (e: nat)
    requires i <= |s|
    ensures i <= e <= |s|
    ensures forall j :: i <= j < e ==> IsRegexSpace(s[j])
    ensures e < |s| ==> !IsRegexSpace(s[e])
    decreases |s| - i
  {
    if i < |s| && IsRegexSpace(s[i]) then SpaceRunEnd(s, i + 1) else i
  }

  predicate DashesAt(s: string, k: nat) {
    k + 3 <= |s| && s[k..k + 3] == "---"
  }

  /** Where a separator match that starts at `i` ends, if one starts there. The first
      alternative (`^---\s*`) only applies at the start of the text and is preferred; in
      the second, `\s*\n` must take the whole white-space run, whose last character must
      be the newline right before the dashes. */
  function MatchAt(s: string, i: nat): (r: Option<nat>)
    requires i <= |s|
    ensures r.Some? ==> i + 3 <= r.value <= |s|
  {
    if i == 0 && DashesAt(s, 0) then Some(SpaceRunEnd(s, 3))
    else
      var e := SpaceRunEnd(s, i);
      if e > i && s[e - 1] == '\n' && DashesAt(s, e) then Some(SpaceRunEnd(s, e + 3)) else None
  }

  datatype Span = Span(start: nat, end: nat)

  /** The leftmost separator match at or after `p`. */
  function NextMatch(s: string, p: nat): (r: Option<Span>)
    requires p <= |s|
    ensures r.Some? ==> p <= r.value.start && r.value.start + 3 <= r.value.end <= |s|
    ensures r.Some? ==> MatchAt(s, r.value.start) == Some(r.value.end)
    decreases |s| - p
  {
    match MatchAt(s, p)
    case Some(e) => Some(Span(p, e))
    case None => if p == |s| then None else NextMatch(s, p + 1)
  }

  /** The match `NextMatch` finds is the leftmost one: none starts between `p` and it. */
  lemma {:induction false} NextMatchLeftmost(s: string, p: nat, q: nat)
    requires p <= q <= |s|
    requires NextMatch(s, p).None? || q < NextMatch(s, p).value.start
    ensures MatchAt(s, q).None?
    decreases q - p
  {
    if q > p {
      NextMatchLeftmost(s, p + 1, q);
    }
  }

  /** The pieces of `s[beg..]` between successive separator matches. */
  function PiecesFrom(s: string, beg: nat): (pieces: seq<string>)
    requires beg <= |s|
    ensures |pieces| >= 1
    decreases |s| - beg
  {
    match NextMatch(s, beg)
    case None => [s[beg..]]
    case Some(m) => [s[beg..m.start]] + PiecesFrom(s, m.end)
  }

  /** The separator texts matched in `s[beg..]`, in order. */
  function SeparatorsFrom(s: string, beg: nat): (seps: seq<string>)
    requires beg <= |s|
    decreases |s| - beg
  {
    match NextMatch(s, beg)
    case None => []
    case Some(m) => [s[m.start..m.end]] + SeparatorsFrom(s, m.end)
  }

  /** `sep.Split(text, -1)`. */
  function SplitDocuments(text: string): (pieces: seq<string>)
    ensures |pieces| == |Separators(text)| + 1
    ensures Weave(pieces, Separators(text)) == text
    ensures forall piece :: piece in pieces ==> !Contains(piece, "\n---")
  {
    ReassembleFrom(text, 0);
    PiecesFromNoSeparator(text, 0);
    PiecesFrom(text, 0)
  }

  function Separators(text: string): seq<string> {
    SeparatorsFrom(text, 0)
  }

  /** Puts the pieces back together with the separators between them. */
  function Weave(pieces: seq<string>, seps: seq<string>): string
    requires |pieces| == |seps| + 1
  {
    if |seps| == 0 then pieces[0] else pieces[0] + seps[0] + Weave(pieces[1..], seps[1..])
  }

  /** The text a separator match may cover: white space ending in a newline, or the start
      of the text, then three dashes, then white space. */
  predicate SeparatorShaped(x: string, atStart: bool) {
    exists k :: 0 <= k <= |x| && ShapedAround(x, k, atStart)
  }

  /** `x` is a separator whose dashes start at `k`. */
  predicate ShapedAround(x: string, k: int, atStart: bool) {
    && 0 <= k <= |x| - 3 && x[k..k + 3] == "---" && AllRegexSpace(x[k + 3..])
    && ((atStart && k == 0) || (k >= 1 && x[k - 1] == '\n' && AllRegexSpace(x[..k])))
  }

  /** Splitting loses nothing: the pieces, rewoven with the separators, are the text. */
  lemma {:induction false} SplitReassembles(text: string)
    ensures |SplitDocuments(text)| == |Separators(text)| + 1
    ensures Weave(SplitDocuments(text), Separators(text)) == text
  {
    ReassembleFrom(text, 0);
  }

  lemma {:induction false} ReassembleFrom(s: string, beg: nat)
    requires beg <= |s|
    ensures |PiecesFrom(s, beg)| == |SeparatorsFrom(s, beg)| + 1
    ensures Weave(PiecesFrom(s, beg), SeparatorsFrom(s, beg)) == s[beg..]
    decreases |s| - beg
  {
    match NextMatch(s, beg)
    case None =>
    case Some(m) =>
      ReassembleFrom(s, m.end);
      WeaveCons(s[beg..m.start], s[m.start..m.end], PiecesFrom(s, m.end), SeparatorsFrom(s, m.end));
      SliceThree(s, beg, m.start, m.end);
  }

  lemma WeaveCons(p: string, sep: string, ps: seq<string>, ss: seq<string>)
    requires |ps| == |ss| + 1
    ensures Weave([p] + ps, [sep] + ss) == p + sep + Weave(ps, ss)
  {
    assert ([p] + ps)[1..] == ps;
    assert ([sep] + ss)[1..] == ss;
  }

  /** Every separator the splitter removes has the separator's shape; only the first can
      be the bare `---` at the start of the text. */
  lemma {:induction false} SeparatorsAreShaped(text: string)
    ensures forall i :: 0 <= i < |Separators(text)| ==> SeparatorShaped(Separators(text)[i], i == 0)
  {
    SeparatorsShapedFrom(text, 0);
  }

  lemma {:induction false} SeparatorsShapedFrom(s: string, beg: nat)
    requires beg <= |s|
    ensures forall i :: 0 <= i < |SeparatorsFrom(s, beg)| ==>
      SeparatorShaped(SeparatorsFrom(s, beg)[i], i == 0 && beg == 0)
    decreases |s| - beg
  {
    match NextMatch(s, beg)
    case None =>
    case Some(m) =>
      SeparatorsShapedFrom(s, m.end);
      MatchShaped(s, m.start, m.end);
      var ss := SeparatorsFrom(s, beg);
      assert ss[1..] == SeparatorsFrom(s, m.end);
      forall i | 0 <= i < |ss|
        ensures SeparatorShaped(ss[i], i == 0 && beg == 0)
      {
        if i > 0 {
          assert ss[i] == SeparatorsFrom(s, m.end)[i - 1];
        } else {
          var k :| 0 <= k <= |ss[0]| && ShapedAround(ss[0], k, m.start == 0);
          assert ShapedAround(ss[0], k, beg == 0);
        }
      }
  }

  lemma {:induction false} MatchShaped(s: string, start: nat, end: nat)
    requires start <= |s| && MatchAt(s, start) == Some(end)
    ensures SeparatorShaped(s[start..end], start == 0)
  {
    var x := s[start..end];
    if start == 0 && DashesAt(s, 0) {
      var e := SpaceRunEnd(s, 3);
      SpacesSlice(s, 3, e);
      assert x[0..3] == s[0..3];
      assert x[3..] == s[3..end];
      assert ShapedAround(x, 0, true);
    } else {
      var e := SpaceRunEnd(s, start);
      SpacesSlice(s, start, e);
      SpacesSlice(s, e + 3, end);
      ShapedAfterSpace(s, start, e, end);
      assert ShapedAround(x, e - start, start == 0);
    }
  }

  /** A run of `\s` characters, sliced out, is all white space. */
  lemma SpacesSlice(s: string, a: nat, b: nat)
    requires a <= b <= |s|
    requires forall j :: a <= j < b ==> IsRegexSpace(s[j])
    ensures AllRegexSpace(s[a..b])
  {
    forall i | 0 <= i < b - a ensures IsRegexSpace(s[a..b][i]) {
      assert s[a..b][i] == s[a + i];
    }
  }

  /** White space ending in a newline, three dashes and white space, cut out of `s`, is a
      separator whose dashes sit after the leading white space. */
  lemma ShapedAfterSpace(s: string, start: nat, e: nat, end: nat)
    requires start < e && e + 3 <= end <= |s|
    requires AllRegexSpace(s[start..e]) && s[e - 1] == '\n' && s[e..e + 3] == "---"
    requires AllRegexSpace(s[e + 3..end])
    ensures ShapedAround(s[start..end], e - start, false)
  {
    var x := s[start..end];
    var k := e - start;
    SliceOfSlice(s, start, end, k, k + 3);
    SliceOfSlice(s, start, end, 0, k);
    SliceOfSlice(s, start, end, k + 3, end - start);
    assert x[k - 1] == s[e - 1];
    assert x[..k] == x[0..k];
    assert x[k + 3..] == x[k + 3..end - start];
  }

  /** A newline followed by three dashes starts a separator match. */
  lemma DashLineMatches(s: string, q: nat)
    requires q + 4 <= |s| && s[q..q + 4] == "\n---"
    ensures MatchAt(s, q).Some?
  {
    assert s[q] == '\n' && s[q + 1] == '-';
    assert SpaceRunEnd(s, q + 1) == q + 1;
    assert SpaceRunEnd(s, q) == q + 1;
    assert s[q + 1..q + 4] == s[q..q + 4][1..];
  }

  /** No piece hides a separator: a line that starts with `---` only ever opens a piece
      (it can do so when the previous separator's trailing white space ate its newline). */
  lemma {:induction false} PiecesHaveNoSeparator(text: string)
    ensures forall piece :: piece in SplitDocuments(text) ==> !Contains(piece, "\n---")
  {
    PiecesFromNoSeparator(text, 0);
  }

  lemma {:induction false} PiecesFromNoSeparator(s: string, beg: nat)
    requires beg <= |s|
    ensures forall piece :: piece in PiecesFrom(s, beg) ==> !Contains(piece, "\n---")
    decreases |s| - beg
  {
    var ps := PiecesFrom(s, beg);
    var r := NextMatch(s, beg);
    FirstPieceNoSeparator(s, beg);
    if r.Some? {
      PiecesFromNoSeparator(s, r.value.end);
      assert ps == [ps[0]] + PiecesFrom(s, r.value.end);
    }
  }

  /** The piece before the next match holds no newline followed by three dashes. */
  lemma FirstPieceNoSeparator(s: string, beg: nat)
    requires beg <= |s|
    ensures !Contains(PiecesFrom(s, beg)[0], "\n---")
  {
    var r := NextMatch(s, beg);
    var stop := if r.None? then |s| else r.value.start;
    var piece := s[beg..stop];
    assert PiecesFrom(s, beg)[0] == piece;
    if Contains(piece, "\n---") {
      var j := ContainsAt(piece, "\n---");
      var q := beg + j;
      SliceOfSlice(s, beg, stop, j, j + 4);
      DashLineMatches(s, q);
      NextMatchLeftmost(s, beg, q);
    }
  }

  /** A position at which `Contains` finds its substring. */
  lemma {:induction false} ContainsAt(x: string, sub: string) returns (j: nat)
    requires Contains(x, sub)
    ensures j + |sub| <= |x| && x[j..j + |sub|] == sub
    decreases |x|
  {
    if HasPrefix(x, sub) {
      j := 0;
    } else {
      var j' := ContainsAt(x[1..], sub);
      j := j' + 1;
      assert x[j..j + |sub|] == x[1..][j'..j' + |sub|];
    }
  }
}
