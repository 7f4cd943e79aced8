/** The `kubeapply_profile` resource (pkg/provider/resource_profile.go): the plan-time
    custom diff, and the guards and call sequencing of create, update and delete. The
    Terraform data object is reduced to the values these read; the expansion of the
    profile and the cluster are parameters, and each operation reports the calls it made
    to the cluster client and the Kubernetes API, in order. */
module ResourceProfile {
  import opened Wrappers
  import opened GoStrings
  import opened Decimal
  import opened Assoc
  import opened Manifests
  import opened DiffResults
  import opened ResourceData
  import opened Format
  import opened ProviderContext

  /** What `expand` produced: the directory of expanded manifests, the expanded files, the
      manifests read back from it, and their overall hash. */
  datatype Expansion = Expansion(dir: string, files: map<string, string>, manifests: seq<Manifest>, totalHash: string)

  /** The cluster as the resource sees it: the client's apply, delete and structured
      diff, the API's namespace list and its namespace creation. */
  datatype Cluster = Cluster(
    apply: string -> ClientResult,
    delete: seq<string> -> ClientResult,
    diff: string -> Result<seq<DiffResult>, string>,
    namespaces: Result<seq<string>, string>,
    createNamespace: string -> Option<string>)

  /** A call to the cluster client or the Kubernetes API. */
  datatype Call =
    | ApplyCall(path: string)
    | DeleteCall(ids: seq<string>)
    | DiffCall(path: string)
    | CreateNamespaceCall(namespace: string)

  /** The number of applies among the calls. */
  function Applies(calls: seq<Call>): nat {
    if |calls| == 0 then 0 else (if calls[0].ApplyCall? then 1 else 0) + Applies(calls[1..])
  }

  predicate NoDeletes(calls: seq<Call>) {
    forall i :: 0 <= i < |calls| ==> !calls[i].DeleteCall?
  }

  // ---------------------------------------------------------------- custom diff

  /** The inputs of the custom diff: the `resources` in the state and in the plan so far,
      the `parameters` and `set` inputs, and the `no_diff` and `show_expanded` switches. */
  datatype DiffData = DiffData(
    prior: map<string, string>,
    planned: map<string, string>,
    parameters: Parameters,
    setParams: seq<SetParam>,
    noDiff: bool,
    showExpanded: bool)

  /** What the custom diff does to a computed attribute: leaves it as planned, sets a new
      value, or marks it as known only after apply. */
  datatype Field<T> = Keep | SetTo(value: T) | Computed

  /** The planned values of the computed attributes. */
  datatype Plan = Plan(
    diff: map<string, string>,
    expandedFiles: map<string, string>,
    resources: Field<map<string, string>>,
    resourcesHash: Field<string>)

  /** The result of the custom diff and the calls it made; `DiffCrashed` when a manifest
      without metadata reaches the namespace creation. */
  datatype DiffOutcome = Planned(plan: Plan, calls: seq<Call>) | DiffFailed(err: string, calls: seq<Call>) | DiffCrashed

  const CannotRunDiff: string := "DIFFS UNKNOWN because provider missing host or kubeconfig"
  const UnknownParametersDiff: string := "DIFFS UNKNOWN because one or more parameters are unknown"
  const NoDiffsFound: string := "NO DIFFS FOUND"
  const ToBeDeleted: string := "TO BE DELETED"
  const NotDeleted: string :=
    "TO BE REMOVED from Terraform but will not be deleted from cluster due to value of allow_deletes.\nPlease delete manually."

  /** The message shown for one diffed object. */
  function DiffMessage(p: ProviderContext, r: DiffResult): (msg: string)
    ensures p.verboseDiffs ==> msg == SanitizeDiff(r.rawDiff)
    ensures !p.verboseDiffs && r.operation == "create" ==>
      msg == "Creating new resource (" + IntToString(r.numAdded) + " lines added)"
    ensures !p.verboseDiffs && r.operation == "delete" ==>
      msg == "Completely removing resource (" + IntToString(r.numRemoved) + " lines removed)"
    ensures r.operation != "create" && r.operation != "delete" ==> msg == SanitizeDiff(r.rawDiff)
  {
    if p.verboseDiffs then SanitizeDiff(r.rawDiff)
    else if r.operation == "create" then
      "Creating new resource (" + IntToString(r.numAdded) + " lines added)"
    else if r.operation == "delete" then
      "Completely removing resource (" + IntToString(r.numRemoved) + " lines removed)"
    else SanitizeDiff(r.rawDiff)
  }

  /** The message a removed resource gets, by whether deletes are allowed. */
  function RemovedMessage(p: ProviderContext): string {
    if CanDelete(p) then ToBeDeleted else NotDeleted
  }

  /** The name/message pairs of the diffed objects, in order. */
  function MessagePairs(p: ProviderContext, diffs: seq<DiffResult>): (pairs: seq<(string, string)>)
    ensures |pairs| == |diffs|
    ensures forall i :: 0 <= i < |diffs| ==> pairs[i] == (diffs[i].name, DiffMessage(p, diffs[i]))
  {
    seq(|diffs|, i requires 0 <= i < |diffs| => (diffs[i].name, DiffMessage(p, diffs[i])))
  }

  /** The names of the diffed objects. */
  function DiffNames(diffs: seq<DiffResult>): set<string> {
    set i | 0 <= i < |diffs| :: diffs[i].name
  }

  /** The names the message pairs are keyed by are those of the diffed objects. */
  lemma MessageKeys(p: ProviderContext, diffs: seq<DiffResult>)
    ensures Keys(MessagePairs(p, diffs)) == DiffNames(diffs)
  {
    var pairs := MessagePairs(p, diffs);
    forall k | k in Keys(pairs) ensures k in DiffNames(diffs) {
      var i :| 0 <= i < |pairs| && pairs[i].0 == k;
      assert diffs[i].name == k;
    }
    forall k | k in DiffNames(diffs) ensures k in Keys(pairs) {
      var i :| 0 <= i < |diffs| && diffs[i].name == k;
      assert pairs[i].0 == k;
    }
  }

  /** The messages of the diffed objects, the last of a name winning, with every removed
      resource marked. */
  function MarkedMessages(p: ProviderContext, diffs: seq<DiffResult>, removed: set<string>): (marked: map<string, string>)
    ensures marked.Keys == DiffNames(diffs) + removed
    ensures forall id :: id in removed ==> marked[id] == RemovedMessage(p)
  {
    MessageKeys(p, diffs);
    FromPairs(MessagePairs(p, diffs)) + map id | id in removed :: RemovedMessage(p)
  }

  /** The `diff` map of a full diff: the marked messages or, when there are none although
      the resources changed, a single `NO DIFFS FOUND` entry under the empty key. */
  function DiffMap(p: ProviderContext, diffs: seq<DiffResult>, removed: set<string>, changed: bool)
    : (results: map<string, string>)
    ensures |diffs| == 0 && removed == {} && changed ==> results == map["" := NoDiffsFound]
    ensures !(|diffs| == 0 && removed == {} && changed) ==> results.Keys == DiffNames(diffs) + removed
    ensures forall id :: id in removed ==> results[id] == RemovedMessage(p)
  {
    var marked := MarkedMessages(p, diffs, removed);
    assert |diffs| > 0 ==> diffs[0].name in DiffNames(diffs);
    assert |diffs| == 0 ==> DiffNames(diffs) == {};
    if |marked| == 0 && changed then map["" := NoDiffsFound] else marked
  }

  /** The message of a diffed object that was not removed is that of the last result of
      its name. */
  lemma DiffMapMessage(p: ProviderContext, diffs: seq<DiffResult>, removed: set<string>, changed: bool, i: nat)
    requires i < |diffs| && diffs[i].name !in removed
    requires forall j :: i < j < |diffs| ==> diffs[j].name != diffs[i].name
    ensures diffs[i].name in DiffMap(p, diffs, removed, changed)
    ensures DiffMap(p, diffs, removed, changed)[diffs[i].name] == DiffMessage(p, diffs[i])
  {
    var pairs := MessagePairs(p, diffs);
    assert LastOfKey(pairs, i);
    FromPairsLastWins(pairs, i);
  }

  /** `resourceProfileCustomDiff`. `expansion` is what `expand` would give and `nsOrder`
      the order Go's map iteration takes over the manifests' namespaces. */
  function CustomDiff(p: ProviderContext, d: DiffData, expansion: Result<Expansion, string>,
                      cluster: Cluster, nsOrder: seq<string>): (r: DiffOutcome)
    requires expansion.Ok? && (forall i :: 0 <= i < |expansion.value.manifests| ==> expansion.value.manifests[i].head.metadata.Some?)
      ==> Enumerates(nsOrder, ManifestNamespaces(expansion.value.manifests))
    ensures !r.Planned? ==> p.canRun && !HasUnknownParameters(d.parameters)
    ensures r.Planned? && |r.calls| > 0 ==>
      p.canRun && !HasUnknownParameters(d.parameters) && expansion.Ok?
      && r.calls[|r.calls| - 1] == DiffCall(expansion.value.dir)
  {
    if !p.canRun then
      Planned(Plan(map["" := CannotRunDiff], map[], Computed, Computed), [])
    else if HasUnknownParameters(d.parameters) then
      Planned(Plan(map["" := UnknownParametersDiff], map[], Computed, Computed), [])
    else
      match expansion
      case Err(e) => DiffFailed(e, [])
      case Ok(x) => DiffExpansion(p, d, x, cluster, nsOrder)
  }

  /** The part of `resourceProfileCustomDiff` after a successful expansion: the planned
      attributes, then the full diff unless it is not wanted. */
  function DiffExpansion(p: ProviderContext, d: DiffData, x: Expansion, cluster: Cluster, nsOrder: seq<string>)
    : (r: DiffOutcome)
    requires (forall i :: 0 <= i < |x.manifests| ==> x.manifests[i].head.metadata.Some?)
      ==> Enumerates(nsOrder, ManifestNamespaces(x.manifests))
    ensures r.Planned? && |r.calls| > 0 ==> r.calls[|r.calls| - 1] == DiffCall(x.dir)
  {
    var files := if d.showExpanded then x.files else map[];
    var unknownSets := HasUnknownSetValues(d.setParams);
    var resources := if unknownSets then Computed else SetTo(ResourcesMap(x.manifests));
    var hash := if unknownSets then Computed else SetTo(x.totalHash);
    var planned := if unknownSets then d.planned else ResourcesMap(x.manifests);
    var changed := d.prior != planned;
    if !ShouldDiff(p, d.noDiff, changed) then
      Planned(Plan(map[], files, resources, hash), [])
    else
      var r := RunDiff(p, x, cluster, nsOrder, Removed(d.prior, planned), changed, files, resources, hash);
      assert r.Planned? ==> r.calls[|r.calls| - 1] == DiffCall(x.dir);
      r
  }

  /** The full diff of an expansion: the missing namespaces are created, then the client
      diffs the expanded directory; the other planned attributes are passed through. */
  function RunDiff(p: ProviderContext, x: Expansion, cluster: Cluster, nsOrder: seq<string>,
                   removed: set<string>, changed: bool, files: map<string, string>,
                   resources: Field<map<string, string>>, hash: Field<string>): (r: DiffOutcome)
    requires (forall i :: 0 <= i < |x.manifests| ==> x.manifests[i].head.metadata.Some?)
      ==> Enumerates(nsOrder, ManifestNamespaces(x.manifests))
    ensures r.Planned? <==>
      var ns := CreateNamespaces(p, x.manifests, cluster.namespaces, nsOrder, cluster.createNamespace);
      ns.NamespacesOutcome? && ns.err.None? && cluster.diff(x.dir).Ok?
    ensures r.Planned? ==>
      && cluster.diff(x.dir).Ok?
      && r.plan == Plan(DiffMap(p, cluster.diff(x.dir).value, removed, changed), files, resources, hash)
      && |r.calls| >= 1 && r.calls[|r.calls| - 1] == DiffCall(x.dir)
    ensures var ns := CreateNamespaces(p, x.manifests, cluster.namespaces, nsOrder, cluster.createNamespace);
      && (r.DiffCrashed? <==> ns.Crashed?)
      && (ns.NamespacesOutcome? && ns.err.Some? ==> r == DiffFailed(ns.err.value, NamespaceCalls(ns.created)))
      && (ns.NamespacesOutcome? && ns.err.None? ==>
            && r.calls == NamespaceCalls(ns.created) + [DiffCall(x.dir)]
            && (r.DiffFailed? <==> cluster.diff(x.dir).Err?)
            && (r.DiffFailed? ==> cluster.diff(x.dir) == Err(r.err)))
  {
    match CreateNamespaces(p, x.manifests, cluster.namespaces, nsOrder, cluster.createNamespace)
    case Crashed => DiffCrashed
    case NamespacesOutcome(nsErr, created) =>
      var nsCalls := NamespaceCalls(created);
      if nsErr.Some? then DiffFailed(nsErr.value, nsCalls)
      else
        var calls := nsCalls + [DiffCall(x.dir)];
        match cluster.diff(x.dir)
        case Err(e) => DiffFailed(e, calls)
        case Ok(diffs) => Planned(Plan(DiffMap(p, diffs, removed, changed), files, resources, hash), calls)
  }

  /** The calls creating `namespaces`, in order. */
  function NamespaceCalls(namespaces: seq<string>): (calls: seq<Call>)
    ensures |calls| == |namespaces|
    ensures forall i :: 0 <= i < |calls| ==> calls[i] == CreateNamespaceCall(namespaces[i])
  {
    seq(|namespaces|, i requires 0 <= i < |namespaces| => CreateNamespaceCall(namespaces[i]))
  }

  /** Without a host or kubeconfig nothing is expanded or diffed, and everything about the
      resources is left unknown; this comes before the unknown-parameter check. */
  lemma CustomDiffCannotRun(p: ProviderContext, d: DiffData, expansion: Result<Expansion, string>,
                            cluster: Cluster, nsOrder: seq<string>)
    requires !p.canRun
    requires expansion.Ok? && (forall i :: 0 <= i < |expansion.value.manifests| ==> expansion.value.manifests[i].head.metadata.Some?)
      ==> Enumerates(nsOrder, ManifestNamespaces(expansion.value.manifests))
    ensures CustomDiff(p, d, expansion, cluster, nsOrder) ==
      Planned(Plan(map["" := CannotRunDiff], map[], Computed, Computed), [])
  {
  }

  /** With a host and kubeconfig but an unknown parameter, nothing is expanded or diffed:
      the `diff` map says why, no files are shown, and the resources are left unknown. */
  lemma CustomDiffUnknownParameters(p: ProviderContext, d: DiffData, expansion: Result<Expansion, string>,
                                    cluster: Cluster, nsOrder: seq<string>)
    requires p.canRun && HasUnknownParameters(d.parameters)
    requires expansion.Ok? && (forall i :: 0 <= i < |expansion.value.manifests| ==> expansion.value.manifests[i].head.metadata.Some?)
      ==> Enumerates(nsOrder, ManifestNamespaces(expansion.value.manifests))
    ensures CustomDiff(p, d, expansion, cluster, nsOrder) ==
      Planned(Plan(map["" := UnknownParametersDiff], map[], Computed, Computed), [])
  {
  }

  /** A failed expansion fails the diff with its error, before anything is called. */
  lemma CustomDiffExpandFails(p: ProviderContext, d: DiffData, e: string, cluster: Cluster, nsOrder: seq<string>)
    requires p.canRun && !HasUnknownParameters(d.parameters)
    ensures CustomDiff(p, d, Err(e), cluster, nsOrder) == DiffFailed(e, [])
  {
  }

  /** The plan of a custom diff that ran the expansion: the expanded files are shown only
      when asked for, unknown set values leave the resources and their hash unknown, and
      without a full diff the `diff` map is empty and nothing is called. */
  lemma CustomDiffPlan(p: ProviderContext, d: DiffData, x: Expansion, cluster: Cluster, nsOrder: seq<string>)
    requires p.canRun && !HasUnknownParameters(d.parameters)
    requires (forall i :: 0 <= i < |x.manifests| ==> x.manifests[i].head.metadata.Some?)
      ==> Enumerates(nsOrder, ManifestNamespaces(x.manifests))
    ensures var r := CustomDiff(p, d, Ok(x), cluster, nsOrder);
      && (r.Planned? ==> r.plan.expandedFiles == (if d.showExpanded then x.files else map[]))
      && (r.Planned? ==> (r.plan.resources.Computed? <==> HasUnknownSetValues(d.setParams)))
      && (r.Planned? ==> (r.plan.resourcesHash.Computed? <==> HasUnknownSetValues(d.setParams)))
      && (r.Planned? && !HasUnknownSetValues(d.setParams) ==>
            r.plan.resources == SetTo(ResourcesMap(x.manifests)) && r.plan.resourcesHash == SetTo(x.totalHash))
      && (d.noDiff ==> r.Planned? && r.plan.diff == map[] && r.calls == [])
  {
  }

  /** A custom diff of an expansion fails with the namespace creation's error and the
      creations made, or, when every creation went through, with the cluster diff's error
      after the diff call. */
  lemma CustomDiffFails(p: ProviderContext, d: DiffData, x: Expansion, cluster: Cluster, nsOrder: seq<string>)
    requires (forall i :: 0 <= i < |x.manifests| ==> x.manifests[i].head.metadata.Some?)
      ==> Enumerates(nsOrder, ManifestNamespaces(x.manifests))
    ensures var r := CustomDiff(p, d, Ok(x), cluster, nsOrder);
      var ns := CreateNamespaces(p, x.manifests, cluster.namespaces, nsOrder, cluster.createNamespace);
      r.DiffFailed? ==>
        && ns.NamespacesOutcome?
        && (ns.err.Some? ==> r == DiffFailed(ns.err.value, NamespaceCalls(ns.created)))
        && (ns.err.None? ==>
              && cluster.diff(x.dir) == Err(r.err)
              && r.calls == NamespaceCalls(ns.created) + [DiffCall(x.dir)])
  {
    var r := CustomDiff(p, d, Ok(x), cluster, nsOrder);
    if r.DiffFailed? {
      var unknownSets := HasUnknownSetValues(d.setParams);
      var planned := if unknownSets then d.planned else ResourcesMap(x.manifests);
      var files := if d.showExpanded then x.files else map[];
      var resources := if unknownSets then Computed else SetTo(ResourcesMap(x.manifests));
      var hash := if unknownSets then Computed else SetTo(x.totalHash);
      assert r == RunDiff(p, x, cluster, nsOrder, Removed(d.prior, planned), d.prior != planned, files, resources, hash);
    }
  }

  /** A full diff: the API's missing namespaces are created first, then the diff runs, and
      the `diff` map holds the messages of the diffed objects and of the removed ones. */
  lemma CustomDiffFull(p: ProviderContext, d: DiffData, x: Expansion, cluster: Cluster, nsOrder: seq<string>)
    requires p.canRun && !HasUnknownParameters(d.parameters) && !HasUnknownSetValues(d.setParams)
    requires forall i :: 0 <= i < |x.manifests| ==> x.manifests[i].head.metadata.Some?
    requires Enumerates(nsOrder, ManifestNamespaces(x.manifests))
    requires ShouldDiff(p, d.noDiff, d.prior != ResourcesMap(x.manifests))
    requires p.autoCreateNamespaces ==> cluster.namespaces.Ok?
    requires forall ns :: cluster.createNamespace(ns).None?
    requires cluster.diff(x.dir).Ok?
    ensures var r := CustomDiff(p, d, Ok(x), cluster, nsOrder);
      var planned := ResourcesMap(x.manifests);
      && r.Planned?
      && |r.calls| >= 1 && r.calls[|r.calls| - 1] == DiffCall(x.dir)
      && r.plan.diff == DiffMap(p, cluster.diff(x.dir).value, Removed(d.prior, planned), d.prior != planned)
  {
    CustomDiffRuns(p, d, x, cluster, nsOrder);
    NamespacesCreated(p, x, cluster, nsOrder);
  }

  /** Namespace creation succeeds when the API lists namespaces and every creation does. */
  lemma NamespacesCreated(p: ProviderContext, x: Expansion, cluster: Cluster, nsOrder: seq<string>)
    requires forall i :: 0 <= i < |x.manifests| ==> x.manifests[i].head.metadata.Some?
    requires Enumerates(nsOrder, ManifestNamespaces(x.manifests))
    requires p.autoCreateNamespaces ==> cluster.namespaces.Ok?
    requires forall ns :: cluster.createNamespace(ns).None?
    ensures var ns := CreateNamespaces(p, x.manifests, cluster.namespaces, nsOrder, cluster.createNamespace);
      ns.NamespacesOutcome? && ns.err.None?
  {
    var ns := CreateNamespaces(p, x.manifests, cluster.namespaces, nsOrder, cluster.createNamespace);
    assert ns.NamespacesOutcome?;
  }

  /** A custom diff that gets as far as diffing is the full diff of its expansion. */
  lemma CustomDiffRuns(p: ProviderContext, d: DiffData, x: Expansion, cluster: Cluster, nsOrder: seq<string>)
    requires p.canRun && !HasUnknownParameters(d.parameters) && !HasUnknownSetValues(d.setParams)
    requires forall i :: 0 <= i < |x.manifests| ==> x.manifests[i].head.metadata.Some?
    requires Enumerates(nsOrder, ManifestNamespaces(x.manifests))
    requires ShouldDiff(p, d.noDiff, d.prior != ResourcesMap(x.manifests))
    ensures var planned := ResourcesMap(x.manifests);
      CustomDiff(p, d, Ok(x), cluster, nsOrder)
        == RunDiff(p, x, cluster, nsOrder, Removed(d.prior, planned), d.prior != planned,
                   if d.showExpanded then x.files else map[], SetTo(planned), SetTo(x.totalHash))
  {
  }

  // ---------------------------------------------------------------- create, update, delete

  /** What create, update and delete report: their diagnostics, their calls, and whether
      they wrote the resource's state (for create: set its id; for update: cleared `diff`
      and `expanded_files`; delete sets no attribute and never writes). */
  datatype Outcome = Outcome(diags: seq<Diagnostic>, calls: seq<Call>, written: bool)

  const CannotCreate: string := "Cannot create because provider is missing a host or kubeconfig"
  const CannotUpdate: string := "Cannot update because provider is missing a host or kubeconfig"
  const CannotDelete: string := "Cannot delete because provider is missing a host or kubeconfig"

  /** `resourceProfileCreate`: expand, apply, and record the resource only if the apply
      had no error. */
  function CreateProfile(p: ProviderContext, expansion: Result<Expansion, string>, cluster: Cluster): (r: Outcome)
    ensures !p.canRun ==> r == Outcome([FromErr(CannotCreate)], [], false)
    ensures p.canRun && expansion.Err? ==> r == Outcome([FromErr(expansion.error)], [], false)
    ensures p.canRun && expansion.Ok? ==>
      && r.calls == [ApplyCall(expansion.value.dir)]
      && r.diags == ApplyDiagnostics(p, cluster.apply(expansion.value.dir))
      && (r.written <==> cluster.apply(expansion.value.dir).err.None?)
    ensures r.written <==> !HasError(r.diags)
  {
    if !p.canRun then
      var diags := [FromErr(CannotCreate)];
      assert diags[0].severity == Error;
      Outcome(diags, [], false)
    else
      match expansion
      case Err(e) =>
        var diags := [FromErr(e)];
        assert diags[0].severity == Error;
        Outcome(diags, [], false)
      case Ok(x) =>
        var diags := ApplyDiagnostics(p, cluster.apply(x.dir));
        Outcome(diags, [ApplyCall(x.dir)], !HasError(diags))
  }

  /** Verbose applies change only the diagnostics of a successful create: the calls made
      and whether the resource is recorded are the same either way. */
  lemma CreateProfileVerbosity(p: ProviderContext, expansion: Result<Expansion, string>, cluster: Cluster, verbose: bool)
    ensures var a, b := CreateProfile(p, expansion, cluster), CreateProfile(p.(verboseApplies := verbose), expansion, cluster);
      a.calls == b.calls && a.written == b.written && HasError(a.diags) == HasError(b.diags)
  {
  }

  /** The calls of a delete handed to the cluster client. */
  function DeleteCalls(report: DeleteReport): (calls: seq<Call>)
    ensures |calls| == |report.calls|
    ensures forall i :: 0 <= i < |calls| ==> calls[i] == DeleteCall(report.calls[i])
  {
    seq(|report.calls|, i requires 0 <= i < |report.calls| => DeleteCall(report.calls[i]))
  }

  /** `resourceProfileUpdate`: the resources removed from the plan are deleted first and
      an error there stops the update; then `diff` and `expanded_files` are cleared, and
      the profile is expanded and applied only if the planned diff was not empty. */
  function UpdateProfile(p: ProviderContext, moduleName: string, prior: map<string, string>, planned: map<string, string>,
                  priorOrder: seq<string>, plannedOrder: seq<string>, plannedDiff: map<string, string>,
                  expansion: Result<Expansion, string>, cluster: Cluster): (r: Outcome)
    requires Enumerates(priorOrder, prior.Keys) && Enumerates(plannedOrder, planned.Keys)
    ensures !p.canRun ==> r == Outcome([FromErr(CannotUpdate)], [], false)
    ensures p.canRun && |plannedDiff| == 0 ==> (r.written <==> !HasError(r.diags))
    ensures p.canRun ==>
      var first := DeleteCalls(DeleteRemoved(p, moduleName, GetResourceChanges(prior, planned, priorOrder, plannedOrder).removed, cluster));
      |first| <= |r.calls| && r.calls[..|first|] == first
    ensures p.canRun ==>
      var deleted := DeleteRemoved(p, moduleName, GetResourceChanges(prior, planned, priorOrder, plannedOrder).removed, cluster);
      && (HasError(deleted.diags) ==> r == Outcome(deleted.diags, DeleteCalls(deleted), false))
      && (!HasError(deleted.diags) ==> r.written)
      && (!HasError(deleted.diags) && |plannedDiff| > 0 && expansion.Err? ==>
            r.diags == deleted.diags + [FromErr(expansion.error)])
      && (!HasError(deleted.diags) && |plannedDiff| > 0 && expansion.Ok? ==>
            r.diags == deleted.diags + ApplyDiagnostics(p, cluster.apply(expansion.value.dir)))
  {
    if !p.canRun then
      Outcome([FromErr(CannotUpdate)], [], false)
    else
      var removed := GetResourceChanges(prior, planned, priorOrder, plannedOrder).removed;
      var deleted := DeleteRemoved(p, moduleName, removed, cluster);
      var calls := DeleteCalls(deleted);
      if HasError(deleted.diags) then Outcome(deleted.diags, calls, false)
      else if |plannedDiff| == 0 then Outcome(deleted.diags, calls, true)
      else
        match expansion
        case Err(e) => Outcome(deleted.diags + [FromErr(e)], calls, true)
        case Ok(x) =>
          Outcome(deleted.diags + ApplyDiagnostics(p, cluster.apply(x.dir)), calls + [ApplyCall(x.dir)], true)
  }

  /** The calls of an update: a delete of exactly the removed resources (when deletes are
      allowed and some were removed), then an apply only if the planned diff was not empty
      and nothing failed before it. */
  lemma UpdateCalls(p: ProviderContext, moduleName: string, prior: map<string, string>, planned: map<string, string>,
                    priorOrder: seq<string>, plannedOrder: seq<string>, plannedDiff: map<string, string>,
                    expansion: Result<Expansion, string>, cluster: Cluster)
    requires p.canRun
    requires Enumerates(priorOrder, prior.Keys) && Enumerates(plannedOrder, planned.Keys)
    ensures var r := UpdateProfile(p, moduleName, prior, planned, priorOrder, plannedOrder, plannedDiff, expansion, cluster);
      var removed := GetResourceChanges(prior, planned, priorOrder, plannedOrder).removed;
      && (forall id :: id in removed <==> id in Removed(prior, planned))
      && (CanDelete(p) && |removed| > 0 ==> |r.calls| >= 1 && r.calls[0] == DeleteCall(removed))
      && (!CanDelete(p) || |removed| == 0 ==> NoDeletes(r.calls))
      && (Applies(r.calls) == 1 <==>
            && |plannedDiff| > 0 && expansion.Ok?
            && (CanDelete(p) && |removed| > 0 ==> cluster.delete(removed).err.None?))
      && Applies(r.calls) <= 1
  {
    var removed := GetResourceChanges(prior, planned, priorOrder, plannedOrder).removed;
    var deleted := DeleteRemoved(p, moduleName, removed, cluster);
    var calls := DeleteCalls(deleted);
    DeleteRemovedCalls(p, moduleName, removed, cluster);
    var r := UpdateProfile(p, moduleName, prior, planned, priorOrder, plannedOrder, plannedDiff, expansion, cluster);
    if !HasError(deleted.diags) && |plannedDiff| > 0 && expansion.Ok? {
      assert r.calls == calls + [ApplyCall(expansion.value.dir)];
      AppliesAppend(calls, [ApplyCall(expansion.value.dir)]);
    } else {
      assert r.calls == calls;
    }
  }

  /** An update reports an error exactly when the delete of the removed resources failed,
      or the planned diff was not empty and the expansion or the apply failed. */
  lemma UpdateErrors(p: ProviderContext, moduleName: string, prior: map<string, string>, planned: map<string, string>,
                     priorOrder: seq<string>, plannedOrder: seq<string>, plannedDiff: map<string, string>,
                     expansion: Result<Expansion, string>, cluster: Cluster)
    requires p.canRun
    requires Enumerates(priorOrder, prior.Keys) && Enumerates(plannedOrder, planned.Keys)
    ensures var r := UpdateProfile(p, moduleName, prior, planned, priorOrder, plannedOrder, plannedDiff, expansion, cluster);
      var removed := GetResourceChanges(prior, planned, priorOrder, plannedOrder).removed;
      HasError(r.diags) <==>
        || (CanDelete(p) && |removed| > 0 && cluster.delete(removed).err.Some?)
        || (|plannedDiff| > 0 && (expansion.Err? || cluster.apply(expansion.value.dir).err.Some?))
  {
    var removed := GetResourceChanges(prior, planned, priorOrder, plannedOrder).removed;
    var deleted := DeleteRemoved(p, moduleName, removed, cluster);
    DeleteRemovedCalls(p, moduleName, removed, cluster);
    var r := UpdateProfile(p, moduleName, prior, planned, priorOrder, plannedOrder, plannedDiff, expansion, cluster);
    if !HasError(deleted.diags) && |plannedDiff| > 0 {
      var tail := match expansion
        case Err(e) => [FromErr(e)]
        case Ok(x) => ApplyDiagnostics(p, cluster.apply(x.dir));
      assert r.diags == deleted.diags + tail;
      if expansion.Err? {
        assert tail[0].severity == Error;
      }
      HasErrorAppend(deleted.diags, tail);
    }
  }

  lemma HasErrorAppend(a: seq<Diagnostic>, b: seq<Diagnostic>)
    ensures HasError(a + b) <==> HasError(a) || HasError(b)
  {
    if HasError(a + b) {
      var i :| 0 <= i < |a + b| && (a + b)[i].severity == Error;
      if i >= |a| {
        assert b[i - |a|].severity == Error;
      }
    }
    if HasError(a) {
      var i :| 0 <= i < |a| && a[i].severity == Error;
      assert (a + b)[i].severity == Error;
    }
    if HasError(b) {
      var i :| 0 <= i < |b| && b[i].severity == Error;
      assert (a + b)[|a| + i].severity == Error;
    }
  }

  /** The first step of an update: the removed resources go to `delete` when there are any. */
  function DeleteRemoved(p: ProviderContext, moduleName: string, removed: seq<string>, cluster: Cluster): DeleteReport {
    if |removed| > 0 then DeleteIds(p, moduleName, removed, cluster.delete) else DeleteReport([], [])
  }

  /** That step calls `delete` once with the removed resources when deletes are allowed and
      some were removed, and not at all otherwise; it fails exactly when that call does. */
  lemma DeleteRemovedCalls(p: ProviderContext, moduleName: string, removed: seq<string>, cluster: Cluster)
    ensures var deleted := DeleteRemoved(p, moduleName, removed, cluster);
      var calls := DeleteCalls(deleted);
      && Applies(calls) == 0
      && (CanDelete(p) && |removed| > 0 ==> calls == [DeleteCall(removed)])
      && (!CanDelete(p) || |removed| == 0 ==> calls == [])
      && (HasError(deleted.diags) <==> CanDelete(p) && |removed| > 0 && cluster.delete(removed).err.Some?)
  {
    var calls := DeleteCalls(DeleteRemoved(p, moduleName, removed, cluster));
    if |calls| == 1 {
      assert Applies(calls) == Applies(calls[1..]);
    }
  }

  lemma {:induction false} AppliesAppend(a: seq<Call>, b: seq<Call>)
    ensures Applies(a + b) == Applies(a) + Applies(b)
  {
    if |a| > 0 {
      var ab := a + b;
      assert ab[0] == a[0];
      assert ab[1..] == a[1..] + b;
      assert Applies(ab) == (if a[0].ApplyCall? then 1 else 0) + Applies(a[1..] + b);
      AppliesAppend(a[1..], b);
    } else {
      assert a + b == b;
    }
  }

  /** `resourceProfileDelete`: refused without a host or kubeconfig only when deletes are
      allowed; otherwise every resource of the state goes to `delete`, in `order`. */
  function DeleteProfile(p: ProviderContext, moduleName: string, resources: map<string, string>,
                         order: seq<string>, cluster: Cluster): (r: Outcome)
    requires Enumerates(order, resources.Keys)
    ensures !p.canRun && CanDelete(p) ==> r == Outcome([FromErr(CannotDelete)], [], false)
    ensures CanDelete(p) && p.canRun ==>
      && r.calls == [DeleteCall(order)]
      && (forall id :: id in r.calls[0].ids <==> id in resources)
      && (HasError(r.diags) <==> cluster.delete(order).err.Some?)
    ensures !r.written
    ensures !CanDelete(p) ==>
      && r.calls == []
      && r.diags == [Diagnostic(Warning, NotConfiguredForDeletes(moduleName), "")]
  {
    if !p.canRun && CanDelete(p) then Outcome([FromErr(CannotDelete)], [], false)
    else
      var report := DeleteIds(p, moduleName, order, cluster.delete);
      Outcome(report.diags, DeleteCalls(report), false)
  }

  /** The life of the repository's test profile: a create, an update with a planned diff
      and an update without one, none removing a resource, apply twice and delete nothing. */
  lemma CreateUpdateUpdateApplies(p: ProviderContext, moduleName: string, resources: map<string, string>,
                                  order: seq<string>, diff: map<string, string>, x: Expansion, cluster: Cluster)
    requires p.canRun && Enumerates(order, resources.Keys) && |diff| > 0
    ensures var created := CreateProfile(p, Ok(x), cluster);
      var updated := UpdateProfile(p, moduleName, resources, resources, order, order, diff, Ok(x), cluster);
      var idle := UpdateProfile(p, moduleName, resources, resources, order, order, map[], Ok(x), cluster);
      && Applies(created.calls + updated.calls + idle.calls) == 2
      && NoDeletes(created.calls + updated.calls + idle.calls)
  {
    var created := CreateProfile(p, Ok(x), cluster);
    var updated := UpdateProfile(p, moduleName, resources, resources, order, order, diff, Ok(x), cluster);
    var idle := UpdateProfile(p, moduleName, resources, resources, order, order, map[], Ok(x), cluster);
    var removed := GetResourceChanges(resources, resources, order, order).removed;
    NothingRemovedFromItself(order, resources);
    UpdateCalls(p, moduleName, resources, resources, order, order, diff, Ok(x), cluster);
    UpdateCalls(p, moduleName, resources, resources, order, order, map[], Ok(x), cluster);
    assert Applies(created.calls) == 1 by {
      assert Applies(created.calls) == 1 + Applies(created.calls[1..]);
    }
    AppliesAppend(created.calls, updated.calls);
    AppliesAppend(created.calls + updated.calls, idle.calls);
  }

  /** With deletes not allowed, neither an update nor a delete of the profile ever calls
      the client's delete. */
  lemma NoDeletesWithoutAllowDeletes(p: ProviderContext, moduleName: string, prior: map<string, string>,
                                     planned: map<string, string>, priorOrder: seq<string>, plannedOrder: seq<string>,
                                     plannedDiff: map<string, string>, expansion: Result<Expansion, string>, cluster: Cluster)
    requires !CanDelete(p)
    requires Enumerates(priorOrder, prior.Keys) && Enumerates(plannedOrder, planned.Keys)
    ensures NoDeletes(UpdateProfile(p, moduleName, prior, planned, priorOrder, plannedOrder, plannedDiff, expansion, cluster).calls)
    ensures NoDeletes(DeleteProfile(p, moduleName, prior, priorOrder, cluster).calls)
  {
    if p.canRun {
      UpdateCalls(p, moduleName, prior, planned, priorOrder, plannedOrder, plannedDiff, expansion, cluster);
    }
  }
}
