/** The structured diff results (pkg/cluster/diff/results.go): the operation a diff block
    stands for, the clipped raw diff shown in comments, and the changed-line count. */
module DiffResults {
  import opened Wrappers
  import opened GoStrings
  import opened Decimal

  /** `Operation`: a diff block creates, deletes or updates an object. */
  datatype Operation = Create | Delete | Update

  /** The string each operation is written as. */
  function OperationName(op: Operation): (s: string)
    ensures |s| == 6
  {
    match op
    case Create => "create"
    case Delete => "delete"
    case Update => "update"
  }

  /** Reads an operation back from its string; any other string names no operation. */
  function ParseOperation(s: string): (op: Option<Operation>)
    ensures op.Some? <==> s == "create" || s == "delete" || s == "update"
  {
    if s == "create" then Some(Create)
    else if s == "delete" then Some(Delete)
    else if s == "update" then Some(Update)
    else None
  }

  /** The three names are the only operations, and each reads back as itself. */
  lemma OperationNames(op: Operation)
    ensures ParseOperation(OperationName(op)) == Some(op)
    ensures forall o: Operation :: OperationName(o) == OperationName(op) ==> o == op
  {
  }

  /** `Result`: one diffed object. The decoded JSON object is not part of this model; the
      operation is kept as the string the JSON carried. */
  datatype DiffResult = DiffResult(name: string, rawDiff: string, numAdded: int, numRemoved: int, operation: string)

  const OmittedPrefix: string := "\n... ("
  const OmittedSuffix: string := " chars omitted)"

  /** The marker put after a clipped diff: `\n... (<k> chars omitted)`. */
  function OmissionMarker(k: nat): string {
    OmittedPrefix + NatToString(k) + OmittedSuffix
  }

  /** Reads the count back from an omission marker: a non-empty run of digits with no
      leading zero, as `%d` writes it. */
  function ReadOmission(m: string): Option<nat> {
    var lo := |OmittedPrefix|;
    var hi := |m| - |OmittedSuffix|;
    if lo < hi && m[..lo] == OmittedPrefix && m[hi..] == OmittedSuffix
       && (forall i :: lo <= i < hi ==> IsDigit(m[i]))
       && (hi - lo > 1 ==> m[lo] != '0')
    then Some(ParseNat(m[lo..hi]))
    else None
  }

  /** An omission marker says how many characters it stands for. */
  lemma ReadOmissionMarker(k: nat)
    ensures ReadOmission(OmissionMarker(k)) == Some(k)
  {
    var d := NatToString(k);
    var m := OmissionMarker(k);
    assert m[..|OmittedPrefix|] == OmittedPrefix;
    assert m[|OmittedPrefix|..|m| - |OmittedSuffix|] == d;
    assert m[|m| - |OmittedSuffix|..] == OmittedSuffix;
    ParseNatToString(k);
  }

  /** The only text that reads back as a count is that count's marker. */
  lemma ReadOmissionExact(m: string)
    requires ReadOmission(m).Some?
    ensures m == OmissionMarker(ReadOmission(m).value)
  {
    var lo := |OmittedPrefix|;
    var hi := |m| - |OmittedSuffix|;
    NatToStringParseNat(m[lo..hi]);
    assert m == m[..lo] + m[lo..hi] + m[hi..];
  }

  /** `ClippedRawDiff`: a diff longer than `maxLen` is cut to its first `maxLen` characters
      and followed by a marker giving the number cut off. */
  function ClippedRawDiff(r: DiffResult, maxLen: nat): (s: string)
    ensures |r.rawDiff| <= maxLen ==> s == r.rawDiff
    ensures |r.rawDiff| > maxLen ==>
      && |s| > maxLen && s[..maxLen] == r.rawDiff[..maxLen]
      && ReadOmission(s[maxLen..]) == Some(|r.rawDiff| - maxLen)
  {
    if |r.rawDiff| > maxLen then
      var k := |r.rawDiff| - maxLen;
      ReadOmissionMarker(k);
      var s := r.rawDiff[..maxLen] + OmissionMarker(k);
      assert s[maxLen..] == OmissionMarker(k);
      s
    else r.rawDiff
  }

  /** `NumChangedLines`: the larger of the added and removed counts. */
  function NumChangedLines(r: DiffResult): (n: int)
    ensures n >= r.numAdded && n >= r.numRemoved
    ensures n == r.numAdded || n == r.numRemoved
  {
    if r.numAdded > r.numRemoved then r.numAdded else r.numRemoved
  }
}
