/** The provider context (pkg/provider/provider_context.go): the switches the provider is
    configured with, the merging of a resource's parameters, the resources map of an
    expansion, the diagnostics of an apply and of a delete, and the creation of missing
    namespaces. The cluster client, the Kubernetes API and JSON decoding are parameters. */
module ProviderContext {
  import opened Wrappers
  import opened GoStrings
  import opened Assoc
  import opened Manifests
  import opened ResourceData
  import opened Format

  /** The switches of `providerContext` the operations read. */
  datatype ProviderContext = ProviderContext(
    allowDeletes: bool,
    autoCreateNamespaces: bool,
    canRun: bool,
    forceDiffs: bool,
    showExpanded: bool,
    verboseApplies: bool,
    verboseDiffs: bool)

  datatype Severity = Error | Warning

  /** A Terraform diagnostic. */
  datatype Diagnostic = Diagnostic(severity: Severity, summary: string, detail: string)

  /** `diag.FromErr`: an error with no detail. */
  function FromErr(err: string): Diagnostic {
    Diagnostic(Error, err, "")
  }

  predicate HasError(diags: seq<Diagnostic>) {
    exists i :: 0 <= i < |diags| && diags[i].severity == Error
  }

  /** What a cluster client call returns: its output and its error, if any. */
  datatype ClientResult = ClientResult(output: string, err: Option<string>)

  // ---------------------------------------------------------------- shouldDiff, canDelete

  /** `shouldDiff`: never when the resource turns diffs off, always when the provider
      forces them, and otherwise when the resources changed. */
  function ShouldDiff(p: ProviderContext, noDiff: bool, resourcesChanged: bool): (r: bool)
    ensures r ==> !noDiff
    ensures !noDiff && p.forceDiffs ==> r
    ensures !p.forceDiffs ==> (r <==> !noDiff && resourcesChanged)
  {
    if noDiff then false
    else if p.forceDiffs then true
    else resourcesChanged
  }

  /** Forcing diffs never suppresses one, and a resource that turns diffs off is never
      diffed, whatever the provider forces. */
  lemma ForceDiffsMonotone(p: ProviderContext, noDiff: bool, changed: bool)
    ensures ShouldDiff(p, noDiff, changed) ==> ShouldDiff(p.(forceDiffs := true), noDiff, changed)
    ensures !ShouldDiff(p.(forceDiffs := true), true, changed)
  {
  }

  predicate CanDelete(p: ProviderContext) {
    p.allowDeletes
  }

  // ---------------------------------------------------------------- apply, delete

  /** `apply`: an error becomes an error diagnostic carrying the output; a success is
      reported, with the quoted output, only in verbose mode. */
  function ApplyDiagnostics(p: ProviderContext, res: ClientResult): (diags: seq<Diagnostic>)
    ensures HasError(diags) <==> res.err.Some?
    ensures res.err.Some? ==> diags == [Diagnostic(Error, res.err.value, res.output)]
    ensures res.err.None? && !p.verboseApplies ==> diags == []
    ensures res.err.None? && p.verboseApplies ==>
      diags == [Diagnostic(Warning, "kubectl apply successful", PrettyResults(res.output))]
  {
    if res.err.Some? then
      var diags := [Diagnostic(Error, res.err.value, res.output)];
      assert diags[0].severity == Error;
      diags
    else if p.verboseApplies then [Diagnostic(Warning, "kubectl apply successful", PrettyResults(res.output))]
    else []
  }

  /** Verbosity decides only what a successful apply reports, never whether it failed. */
  lemma VerbosityKeepsErrors(p: ProviderContext, res: ClientResult, verbose: bool)
    ensures HasError(ApplyDiagnostics(p, res)) == HasError(ApplyDiagnostics(p.(verboseApplies := verbose), res))
    ensures res.err.Some? ==> ApplyDiagnostics(p, res) == ApplyDiagnostics(p.(verboseApplies := verbose), res)
  {
  }

  /** The diagnostics of `delete` and the id lists it handed to the cluster client. */
  datatype DeleteReport = DeleteReport(diags: seq<Diagnostic>, calls: seq<seq<string>>)

  /** The warning given instead of deleting when deletes are not allowed. */
  function NotConfiguredForDeletes(moduleName: string): string {
    "The kubeapply provider is not configured for deletes in " + moduleName + "; please delete manually if needed."
  }

  /** `delete`: when deletes are not allowed nothing is deleted and a warning says so;
      otherwise all ids go to the cluster client in one call, whose result is reported. */
  function DeleteIds(p: ProviderContext, moduleName: string, ids: seq<string>,
                  clientDelete: seq<string> -> ClientResult): (r: DeleteReport)
    ensures |r.diags| == 1
    ensures !CanDelete(p) <==> r.calls == []
    ensures !CanDelete(p) ==> r.diags == [Diagnostic(Warning, NotConfiguredForDeletes(moduleName), "")]
    ensures CanDelete(p) ==>
      var res := clientDelete(ids);
      && r.calls == [ids]
      && (HasError(r.diags) <==> res.err.Some?)
      && (res.err.Some? ==> r.diags[0] == Diagnostic(Error, res.err.value, res.output))
      && (res.err.None? ==> r.diags[0] == Diagnostic(Warning, "kubectl delete successful", res.output))
  {
    if !CanDelete(p) then DeleteReport([Diagnostic(Warning, NotConfiguredForDeletes(moduleName), "")], [])
    else
      var res := clientDelete(ids);
      if res.err.Some? then
        var diags := [Diagnostic(Error, res.err.value, res.output)];
        assert diags[0].severity == Error;
        DeleteReport(diags, [ids])
      else DeleteReport([Diagnostic(Warning, "kubectl delete successful", res.output)], [ids])
  }

  // ---------------------------------------------------------------- expand: parameters

  /** The value used for a set parameter whose value is unknown and that has no
      placeholder of its own: a JSON string. */
  const DefaultPlaceholder: string := "\"DEFAULT_PLACEHOLDER_VALUE\""

  /** A parameter of the expansion: a string from `parameters`, or the decoded JSON of a
      `set` element. */
  datatype ParamValue<J> = Literal(s: string) | Decoded(j: J)

  /** The text decoded for a set element: its value, or, when the value is unknown, its
      placeholder, or the default placeholder when it has none. */
  function SetText(param: SetParam): (text: string)
    ensures param.value != UnknownValue ==> text == param.value
    ensures param.value == UnknownValue && param.placeholder != "" ==> text == param.placeholder
    ensures param.value == UnknownValue && param.placeholder == "" ==> text == DefaultPlaceholder
  {
    if param.value == UnknownValue then
      if param.placeholder == "" then DefaultPlaceholder else param.placeholder
    else param.value
  }

  /** No value of the set parameters fails to decode before `k`. */
  predicate DecodesBefore<J>(params: seq<SetParam>, decode: string -> Result<J, string>, k: nat)
    requires k <= |params|
  {
    forall i :: 0 <= i < k ==> decode(SetText(params[i])).Ok?
  }

  /** The decoded set elements as name/value pairs, or the first decoding error. */
  function DecodeSets<J>(params: seq<SetParam>, decode: string -> Result<J, string>)
    : (r: Result<seq<(string, ParamValue<J>)>, string>)
    ensures r.Ok? <==> DecodesBefore(params, decode, |params|)
    ensures r.Ok? ==>
      && |r.value| == |params|
      && forall i :: 0 <= i < |params| ==>
           r.value[i] == (params[i].name, Decoded(decode(SetText(params[i])).value))
    ensures r.Err? ==>
      exists k :: 0 <= k < |params| && DecodesBefore(params, decode, k) && decode(SetText(params[k])) == Err(r.error)
  {
    if |params| == 0 then Ok([])
    else
      var head := decode(SetText(params[0]));
      if head.Err? then
        assert DecodesBefore(params, decode, 0);
        Err(head.error)
      else
        var rest := DecodeSets(params[1..], decode);
        assert forall i :: 1 <= i < |params| ==> params[i] == params[1..][i - 1];
        if rest.Err? then
          var k :| 0 <= k < |params[1..]| && DecodesBefore(params[1..], decode, k)
            && decode(SetText(params[1..][k])) == Err(rest.error);
          assert DecodesBefore(params, decode, k + 1);
          Err(rest.error)
        else
          Ok([(params[0].name, Decoded(head.value))] + rest.value)
  }

  /** The `parameters` map as expansion parameters. */
  function Literals<J>(strParams: map<string, string>): (m: map<string, ParamValue<J>>)
    ensures m.Keys == strParams.Keys
    ensures forall k :: k in m ==> m[k] == Literal(strParams[k])
  {
    map k | k in strParams :: Literal(strParams[k])
  }

  /** The parameter merging of `expand`: the `parameters` map, then each set element
      decoded and assigned over it in order; the first decoding error stops it. */
  function ExpandParameters<J>(strParams: map<string, string>, setParams: seq<SetParam>,
                               decode: string -> Result<J, string>): (r: Result<map<string, ParamValue<J>>, string>)
    ensures r.Ok? <==> DecodesBefore(setParams, decode, |setParams|)
    ensures r.Ok? ==> r.value.Keys == strParams.Keys + (set i | 0 <= i < |setParams| :: setParams[i].name)
    ensures r.Err? ==>
      exists k :: 0 <= k < |setParams| && DecodesBefore(setParams, decode, k) && decode(SetText(setParams[k])) == Err(r.error)
  {
    match DecodeSets(setParams, decode)
    case Err(e) => Err(e)
    case Ok(pairs) =>
      assert Keys(pairs) == (set i | 0 <= i < |setParams| :: setParams[i].name) by {
        forall k | k in Keys(pairs) ensures k in (set i | 0 <= i < |setParams| :: setParams[i].name) {
          var i :| 0 <= i < |pairs| && pairs[i].0 == k;
          assert setParams[i].name == k;
        }
        forall k | k in (set i | 0 <= i < |setParams| :: setParams[i].name) ensures k in Keys(pairs) {
          var i :| 0 <= i < |setParams| && setParams[i].name == k;
          assert pairs[i].0 == k;
        }
      }
      Ok(Assign(pairs, Literals(strParams)))
  }

  /** A set element overrides the `parameters` entry of its name, and the last element of
      a name decides its value. */
  lemma ExpandSetWins<J>(strParams: map<string, string>, setParams: seq<SetParam>,
                         decode: string -> Result<J, string>, i: nat)
    requires i < |setParams| && DecodesBefore(setParams, decode, |setParams|)
    requires forall j :: i < j < |setParams| ==> setParams[j].name != setParams[i].name
    ensures var r := ExpandParameters(strParams, setParams, decode);
      && r.Ok? && setParams[i].name in r.value
      && r.value[setParams[i].name] == Decoded(decode(SetText(setParams[i])).value)
  {
    var pairs := DecodeSets(setParams, decode).value;
    assert LastOfKey(pairs, i);
    AssignLastWins(pairs, Literals<J>(strParams), i);
  }

  /** A `parameters` entry no set element names keeps its string. */
  lemma ExpandKeepsLiteral<J>(strParams: map<string, string>, setParams: seq<SetParam>,
                              decode: string -> Result<J, string>, k: string)
    requires k in strParams && DecodesBefore(setParams, decode, |setParams|)
    requires forall j :: 0 <= j < |setParams| ==> setParams[j].name != k
    ensures var r := ExpandParameters(strParams, setParams, decode);
      r.Ok? && k in r.value && r.value[k] == Literal(strParams[k])
  {
    var pairs := DecodeSets(setParams, decode).value;
    assert k !in Keys(pairs);
    AssignKeeps(pairs, Literals<J>(strParams), k);
  }

  /** An unknown set value with no placeholder expands to whatever the default
      placeholder decodes to, so the expansion can go ahead at plan time. */
  lemma UnknownSetValueUsesPlaceholder<J>(strParams: map<string, string>, name: string,
                                          decode: string -> Result<J, string>)
    requires decode(DefaultPlaceholder).Ok?
    ensures var r := ExpandParameters(strParams, [SetParam(name, UnknownValue, "")], decode);
      r.Ok? && r.value[name] == Decoded(decode(DefaultPlaceholder).value)
  {
    ExpandSetWins(strParams, [SetParam(name, UnknownValue, "")], decode, 0);
  }

  // ---------------------------------------------------------------- expand: resources

  /** The `id` to `hash` pairs of the manifests, in order. */
  function IdHashPairs(manifests: seq<Manifest>): (pairs: seq<(string, string)>)
    ensures |pairs| == |manifests|
    ensures forall i :: 0 <= i < |manifests| ==> pairs[i] == (manifests[i].id, manifests[i].hash)
  {
    seq(|manifests|, i requires 0 <= i < |manifests| => (manifests[i].id, manifests[i].hash))
  }

  /** The `resources` map of an expansion: every manifest's id maps to its hash. */
  function ResourcesMap(manifests: seq<Manifest>): (resources: map<string, string>)
    ensures forall i :: 0 <= i < |manifests| ==> manifests[i].id in resources
    ensures forall id :: id in resources ==> exists i :: 0 <= i < |manifests| && manifests[i].id == id
  {
    var pairs := IdHashPairs(manifests);
    assert forall i :: 0 <= i < |manifests| ==> pairs[i].0 == manifests[i].id;
    FromPairs(pairs)
  }

  /** Of two manifests with the same id, the later one's hash is kept. */
  lemma ResourcesMapLastWins(manifests: seq<Manifest>, i: nat)
    requires i < |manifests|
    requires forall j :: i < j < |manifests| ==> manifests[j].id != manifests[i].id
    ensures ResourcesMap(manifests)[manifests[i].id] == manifests[i].hash
  {
    var pairs := IdHashPairs(manifests);
    assert LastOfKey(pairs, i);
    FromPairsLastWins(pairs, i);
  }

  // ---------------------------------------------------------------- createNamespaces

  /** The namespaces the manifests are in; the empty namespace is not one. */
  function ManifestNamespaces(manifests: seq<Manifest>): set<string>
    requires forall i :: 0 <= i < |manifests| ==> manifests[i].head.metadata.Some?
  {
    set i | 0 <= i < |manifests| && manifests[i].head.metadata.value.namespace != ""
      :: manifests[i].head.metadata.value.namespace
  }

  /** The result of `createNamespaces` and the namespaces it asked the API to create, in
      order; `Crashed` when a manifest has no metadata (a nil dereference in Go). */
  datatype NamespacesOutcome = NamespacesOutcome(err: Option<string>, created: seq<string>) | Crashed

  /** A creation error that only says the namespace is there already. */
  predicate AlreadyExists(err: string) {
    Contains(err, "already exists")
  }

  /** The creation loop: each namespace, in `order`, that the API does not list is
      created; the first error other than "already exists" ends the loop. */
  function CreateMissing(order: seq<string>, apiNames: set<string>, create: string -> Option<string>)
    : (r: NamespacesOutcome)
    ensures r.NamespacesOutcome?
    ensures forall ns :: ns in r.created ==> ns in order && ns !in apiNames
    ensures r.err.None? ==> forall ns :: ns in order && ns !in apiNames ==> ns in r.created
    ensures r.err.None? ==> forall ns :: ns in r.created ==> create(ns).None? || AlreadyExists(create(ns).value)
    ensures r.err.Some? ==>
      && |r.created| > 0
      && create(r.created[|r.created| - 1]) == r.err
      && !AlreadyExists(r.err.value)
    ensures forall j :: 0 <= j < |r.created| - 1 ==>
      create(r.created[j]).None? || AlreadyExists(create(r.created[j]).value)
  {
    if |order| == 0 then NamespacesOutcome(None, [])
    else
      var ns := order[0];
      assert forall x :: x in order[1..] ==> x in order;
      if ns in apiNames then CreateMissing(order[1..], apiNames, create)
      else
        var err := create(ns);
        if err.Some? && !AlreadyExists(err.value) then NamespacesOutcome(err, [ns])
        else
          var rest := CreateMissing(order[1..], apiNames, create);
          assert forall x :: x in order ==> x == ns || x in order[1..];
          var created := [ns] + rest.created;
          assert forall j :: 1 <= j < |created| ==> created[j] == rest.created[j - 1];
          NamespacesOutcome(rest.err, created)
  }

  /** `createNamespaces`: when enabled, every namespace of the manifests that the API does
      not list is created, in `order` (the order Go's map iteration took), swallowing
      "already exists"; a listing error is returned before anything is created. */
  function CreateNamespaces(p: ProviderContext, manifests: seq<Manifest>,
                            apiList: Result<seq<string>, string>, order: seq<string>,
                            create: string -> Option<string>): (r: NamespacesOutcome)
    requires (forall i :: 0 <= i < |manifests| ==> manifests[i].head.metadata.Some?) ==>
      Enumerates(order, ManifestNamespaces(manifests))
    ensures !p.autoCreateNamespaces ==> r == NamespacesOutcome(None, [])
    ensures r.Crashed? <==>
      p.autoCreateNamespaces && exists i :: 0 <= i < |manifests| && manifests[i].head.metadata.None?
    ensures r.NamespacesOutcome? && apiList.Err? && p.autoCreateNamespaces ==>
      r == NamespacesOutcome(Some(apiList.error), [])
    ensures r.NamespacesOutcome? && apiList.Ok? ==>
      forall ns :: ns in r.created ==> ns in ManifestNamespaces(manifests) && ns !in apiList.value
    ensures r.NamespacesOutcome? && apiList.Ok? && r.err.None? && p.autoCreateNamespaces ==>
      forall ns :: ns in ManifestNamespaces(manifests) && ns !in apiList.value ==> ns in r.created
    ensures r.NamespacesOutcome? && apiList.Ok? ==>
      && (forall j :: 0 <= j < |r.created| - 1 ==>
            create(r.created[j]).None? || AlreadyExists(create(r.created[j]).value))
      && (r.err.None? ==> forall ns :: ns in r.created ==> create(ns).None? || AlreadyExists(create(ns).value))
      && (r.err.Some? ==>
            && |r.created| > 0
            && create(r.created[|r.created| - 1]) == r.err
            && !AlreadyExists(r.err.value))
  {
    if !p.autoCreateNamespaces then NamespacesOutcome(None, [])
    else if exists i :: 0 <= i < |manifests| && manifests[i].head.metadata.None? then Crashed
    else
      match apiList
      case Err(e) => NamespacesOutcome(Some(e), [])
      case Ok(names) =>
        var apiNames := set n | n in names;
        CreateMissing(order, apiNames, create)
  }
}
