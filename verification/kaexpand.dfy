/** The parameter parsing of the `kaexpand` debugging tool (cmd/kaexpand/main.go,
    `toClusterConfig`): the cluster fields are copied, and each `-p key=value` entry and
    then each `-j key=json` entry is assigned into the parameters, so later entries, and
    JSON entries above all, win. JSON decoding is a parameter. */
module KaExpand {
  import opened Wrappers
  import opened GoStrings
  import opened Assoc
  import opened ProviderContext

  /** The command line options the parsing reads. */
  datatype Options = Options(
    accountId: string,
    accountName: string,
    cluster: string,
    environment: string,
    region: string,
    parameters: seq<string>,
    jsonParameters: seq<string>)

  /** The cluster configuration the tool expands with. */
  datatype Config<J> = Config(
    cluster: string,
    region: string,
    accountId: string,
    accountName: string,
    environment: string,
    parameters: map<string, ParamValue<J>>)

  const ParameterFormatError: string := "Parameter is not in key=value format: "
  const JsonParameterFormatError: string := "JSON parameter is not in key=value format: "

  /** `strings.SplitN(entry, "=", 2)` read as a key and a value: the entry is cut at its
      first `=`, and one without `=` has no key. */
  function KeyValue(entry: string): (kv: Option<(string, string)>)
    ensures kv.None? <==> '=' !in entry
    ensures kv.Some? ==> '=' !in kv.value.0
  {
    var components := SplitN(entry, '=', 2);
    if |components| != 2 then
      assert components == [components[0]];
      None
    else
      KeyValueJoins(entry);
      Some((components[0], components[1]))
  }

  /** The key, an `=` and the value make up the entry again. */
  lemma KeyValueJoins(entry: string)
    requires |SplitN(entry, '=', 2)| == 2
    ensures var components := SplitN(entry, '=', 2);
      entry == components[0] + "=" + components[1] && '=' in entry
  {
    var components := SplitN(entry, '=', 2);
    assert Join(components, '=') == components[0] + "=" + Join(components[1..], '=');
    assert components[1..] == [components[1]];
    assert entry[|components[0]|] == '=';
  }

  /** An entry with a key is its key, an `=` and its value. */
  lemma KeyValueSplits(entry: string)
    requires KeyValue(entry).Some?
    ensures entry == KeyValue(entry).value.0 + "=" + KeyValue(entry).value.1
  {
    KeyValueJoins(entry);
  }

  /** Cutting a joined entry gives back its key and its value, whatever the value holds:
      KeyValue inverts `key + "=" + value`. */
  lemma KeyValueOfJoined(key: string, value: string)
    requires '=' !in key
    ensures KeyValue(key + "=" + value) == Some((key, value))
  {
    var entry := key + "=" + value;
    var kv := KeyValue(entry);
    assert entry[|key|] == '=';
    assert kv.Some?;
    KeyValueSplits(entry);
    var k := kv.value.0;
    assert k == entry[..|k|] == key;
    assert kv.value.1 == entry[|key| + 1..] == value;
  }

  /** An `=` inside the value stays in the value. */
  lemma ValueKeepsEquals()
    ensures KeyValue("key=a=b") == Some(("key", "a=b"))
  {
    KeyValueOfJoined("key", "a=b");
    assert "key" + "=" + "a=b" == "key=a=b";
  }

  /** Every `-p` entry before `k` has an `=`. */
  predicate FormattedBefore(entries: seq<string>, k: nat)
    requires k <= |entries|
  {
    forall i :: 0 <= i < k ==> KeyValue(entries[i]).Some?
  }

  /** The first loop: the `-p` entries as key/string pairs, or an error naming the first
      entry without `=`. */
  function LiteralPairs<J>(entries: seq<string>): (r: Result<seq<(string, ParamValue<J>)>, string>)
    ensures r.Ok? <==> FormattedBefore(entries, |entries|)
    ensures r.Ok? ==>
      && |r.value| == |entries|
      && forall i :: 0 <= i < |entries| ==>
           r.value[i] == (KeyValue(entries[i]).value.0, Literal(KeyValue(entries[i]).value.1))
  {
    if |entries| == 0 then Ok([])
    else
      match KeyValue(entries[0])
      case None => Err(ParameterFormatError + entries[0])
      case Some(kv) =>
        var tail := entries[1..];
        var rest := LiteralPairs<J>(tail);
        assert forall i :: 1 <= i < |entries| ==> entries[i] == tail[i - 1];
        if rest.Err? then Err(rest.error)
        else
          var pairs := [(kv.0, Literal(kv.1))] + rest.value;
          assert forall i :: 1 <= i < |entries| ==> pairs[i] == rest.value[i - 1];
          Ok(pairs)
  }

  /** The error names the first entry without `=`. */
  lemma {:induction false} LiteralPairsError<J>(entries: seq<string>, k: nat)
    requires k < |entries| && FormattedBefore(entries, k) && KeyValue(entries[k]).None?
    ensures LiteralPairs<J>(entries) == Err(ParameterFormatError + entries[k])
    decreases k
  {
    if k > 0 {
      var tail := entries[1..];
      assert tail[k - 1] == entries[k];
      assert FormattedBefore(tail, k - 1) by {
        forall i | 0 <= i < k - 1 ensures KeyValue(tail[i]).Some? {
          assert tail[i] == entries[i + 1];
        }
      }
      LiteralPairsError<J>(tail, k - 1);
    }
  }

  /** A `-j` entry has an `=` and a value that decodes. */
  predicate JsonEntryOk<J>(entry: string, decode: string -> Result<J, string>) {
    KeyValue(entry).Some? && decode(KeyValue(entry).value.1).Ok?
  }

  /** Every `-j` entry before `k` is well formed and decodes. */
  predicate DecodedBefore<J>(entries: seq<string>, decode: string -> Result<J, string>, k: nat)
    requires k <= |entries|
  {
    forall i :: 0 <= i < k ==> JsonEntryOk(entries[i], decode)
  }

  /** The error of a `-j` entry that is not well formed or does not decode. */
  function JsonEntryError<J>(entry: string, decode: string -> Result<J, string>): string
    requires !JsonEntryOk(entry, decode)
  {
    if KeyValue(entry).None? then JsonParameterFormatError + entry
    else decode(KeyValue(entry).value.1).error
  }

  /** The second loop: the `-j` entries as key/decoded pairs, or the error of the first
      entry without `=` or whose value does not decode. */
  function JsonPairs<J>(entries: seq<string>, decode: string -> Result<J, string>)
    : (r: Result<seq<(string, ParamValue<J>)>, string>)
    ensures r.Ok? <==> DecodedBefore(entries, decode, |entries|)
    ensures r.Ok? ==>
      && |r.value| == |entries|
      && forall i :: 0 <= i < |entries| ==>
           r.value[i] == (KeyValue(entries[i]).value.0, Decoded(decode(KeyValue(entries[i]).value.1).value))
  {
    if |entries| == 0 then Ok([])
    else if !JsonEntryOk(entries[0], decode) then Err(JsonEntryError(entries[0], decode))
    else
      var kv := KeyValue(entries[0]).value;
      var tail := entries[1..];
      var rest := JsonPairs(tail, decode);
      assert forall i :: 1 <= i < |entries| ==> entries[i] == tail[i - 1];
      if rest.Err? then Err(rest.error)
      else
        var pairs := [(kv.0, Decoded(decode(kv.1).value))] + rest.value;
        assert forall i :: 1 <= i < |entries| ==> pairs[i] == rest.value[i - 1];
        Ok(pairs)
  }

  /** The error is that of the first entry that is not well formed or does not decode. */
  lemma {:induction false} JsonPairsError<J>(entries: seq<string>, decode: string -> Result<J, string>, k: nat)
    requires k < |entries| && DecodedBefore(entries, decode, k) && !JsonEntryOk(entries[k], decode)
    ensures JsonPairs(entries, decode) == Err(JsonEntryError(entries[k], decode))
    decreases k
  {
    if k > 0 {
      var tail := entries[1..];
      assert tail[k - 1] == entries[k];
      assert DecodedBefore(tail, decode, k - 1) by {
        forall i | 0 <= i < k - 1 ensures JsonEntryOk(tail[i], decode) {
          assert tail[i] == entries[i + 1];
        }
      }
      JsonPairsError(tail, decode, k - 1);
    }
  }

  /** `toClusterConfig`: the cluster fields copied, and the parameters filled from the
      `-p` entries and then the `-j` entries; the first bad entry is the error, a `-p`
      one before any `-j` one. */
  function ToClusterConfig<J>(o: Options, decode: string -> Result<J, string>): (r: Result<Config<J>, string>)
    ensures r.Ok? <==> FormattedBefore(o.parameters, |o.parameters|) && DecodedBefore(o.jsonParameters, decode, |o.jsonParameters|)
    ensures r.Ok? ==>
      && r.value.cluster == o.cluster && r.value.region == o.region
      && r.value.accountId == o.accountId && r.value.accountName == o.accountName
      && r.value.environment == o.environment
    ensures r.Ok? ==> r.value.parameters.Keys == EntryKeys(o.parameters) + EntryKeys(o.jsonParameters)
  {
    match LiteralPairs<J>(o.parameters)
    case Err(e) => Err(e)
    case Ok(literals) =>
      match JsonPairs(o.jsonParameters, decode)
      case Err(e) => Err(e)
      case Ok(decoded) =>
        LiteralKeys<J>(o.parameters);
        JsonKeys(o.jsonParameters, decode);
        KeysAppend(literals, decoded);
        Ok(Config(o.cluster, o.region, o.accountId, o.accountName, o.environment, FromPairs(literals + decoded)))
  }

  /** The keys of the well-formed entries. */
  function EntryKeys(entries: seq<string>): set<string> {
    set i | 0 <= i < |entries| && KeyValue(entries[i]).Some? :: KeyValue(entries[i]).value.0
  }

  /** The first `-p` entry without `=` is the error, whatever the `-j` entries hold. */
  lemma ParameterErrorFirst<J>(o: Options, decode: string -> Result<J, string>, k: nat)
    requires k < |o.parameters| && FormattedBefore(o.parameters, k) && KeyValue(o.parameters[k]).None?
    ensures ToClusterConfig(o, decode) == Err(ParameterFormatError + o.parameters[k])
  {
    LiteralPairsError<J>(o.parameters, k);
  }

  /** With every `-p` entry well formed, the first bad `-j` entry is the error. */
  lemma JsonParameterError<J>(o: Options, decode: string -> Result<J, string>, k: nat)
    requires FormattedBefore(o.parameters, |o.parameters|)
    requires k < |o.jsonParameters| && DecodedBefore(o.jsonParameters, decode, k) && !JsonEntryOk(o.jsonParameters[k], decode)
    ensures ToClusterConfig(o, decode) == Err(JsonEntryError(o.jsonParameters[k], decode))
  {
    JsonPairsError(o.jsonParameters, decode, k);
  }

  /** The pairs of the `-p` entries are keyed by the entries' keys. */
  lemma LiteralKeys<J>(entries: seq<string>)
    requires LiteralPairs<J>(entries).Ok?
    ensures Keys(LiteralPairs<J>(entries).value) == EntryKeys(entries)
  {
    var pairs := LiteralPairs<J>(entries).value;
    forall key | key in Keys(pairs) ensures key in EntryKeys(entries) {
      var j :| 0 <= j < |pairs| && pairs[j].0 == key;
      assert KeyValue(entries[j]).value.0 == key;
    }
    forall key | key in EntryKeys(entries) ensures key in Keys(pairs) {
      var i :| 0 <= i < |entries| && KeyValue(entries[i]).Some? && KeyValue(entries[i]).value.0 == key;
      assert pairs[i].0 == key;
    }
  }

  /** The pairs of the `-j` entries are keyed by the entries' keys. */
  lemma JsonKeys<J>(entries: seq<string>, decode: string -> Result<J, string>)
    requires JsonPairs(entries, decode).Ok?
    ensures Keys(JsonPairs(entries, decode).value) == EntryKeys(entries)
  {
    var pairs := JsonPairs(entries, decode).value;
    forall key | key in Keys(pairs) ensures key in EntryKeys(entries) {
      var j :| 0 <= j < |pairs| && pairs[j].0 == key;
      assert KeyValue(entries[j]).value.0 == key;
    }
    forall key | key in EntryKeys(entries) ensures key in Keys(pairs) {
      var i :| 0 <= i < |entries| && KeyValue(entries[i]).Some? && KeyValue(entries[i]).value.0 == key;
      assert pairs[i].0 == key;
    }
  }

  /** A `-j` entry whose key no later `-j` entry repeats decides that parameter, over any
      `-p` entry of the same key. */
  lemma JsonParameterWins<J>(o: Options, decode: string -> Result<J, string>, i: nat)
    requires ToClusterConfig(o, decode).Ok? && i < |o.jsonParameters|
    requires forall j :: i < j < |o.jsonParameters| ==>
      KeyValue(o.jsonParameters[j]).value.0 != KeyValue(o.jsonParameters[i]).value.0
    ensures var kv := KeyValue(o.jsonParameters[i]).value;
      var params := ToClusterConfig(o, decode).value.parameters;
      kv.0 in params && params[kv.0] == Decoded(decode(kv.1).value)
  {
    var literals := LiteralPairs<J>(o.parameters).value;
    var decoded := JsonPairs(o.jsonParameters, decode).value;
    assert ToClusterConfig(o, decode).value.parameters == FromPairs(literals + decoded);
    assert LastOfKey(decoded, i);
    FromPairsLaterWins(literals, decoded, i);
  }

  /** A `-p` entry whose key no later `-p` entry and no `-j` entry repeats keeps its value
      as a string. */
  lemma LiteralParameterKept<J>(o: Options, decode: string -> Result<J, string>, key: string, value: string, i: nat)
    requires ToClusterConfig(o, decode).Ok? && i < |o.parameters|
    requires o.parameters[i] == key + "=" + value && '=' !in key
    requires forall j :: i < j < |o.parameters| ==> KeyValue(o.parameters[j]).value.0 != key
    requires forall j :: 0 <= j < |o.jsonParameters| ==> KeyValue(o.jsonParameters[j]).value.0 != key
    ensures var params := ToClusterConfig(o, decode).value.parameters;
      key in params && params[key] == Literal(value)
  {
    var literals := LiteralPairs<J>(o.parameters).value;
    var decoded := JsonPairs(o.jsonParameters, decode).value;
    assert ToClusterConfig(o, decode).value.parameters == FromPairs(literals + decoded);
    KeyValueOfJoined(key, value);
    assert literals[i] == (key, Literal(value));
    assert LastOfKey(literals, i);
    assert key !in Keys(decoded);
    FromPairsEarlierKept(literals, decoded, i);
  }
}
