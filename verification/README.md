# kubeapply provider core in Dafny

This project models the decision and string logic of the kubeapply Terraform
provider: the logic between Terraform, the manifest files of a profile and `kubectl`.
It covers seven areas:

- **Manifests.** How the documents of the expanded manifest files become manifests.
  This covers the emptiness test, the metadata filter, the identifier
  `apiVersion.kind.namespace.name` and its decoder, and the `---` document
  separator.
- **Apply order.** The order in which manifests are applied: the `KindOrder` sort and
  the zero-padded file names that make kubectl follow it.
- **`kubectl api-resources`.** How its table is parsed.
- **kubectl invocations.** The exact argument and environment vectors of the ordered
  client's apply, diff and delete, and the delete batch loop. The cluster client
  built on top adds the dry-run-then-apply sequencing and the stripping of noise
  ahead of the JSON diff.
- **Diff results.** The `Operation` values, `ClippedRawDiff` and `NumChangedLines`.
- **Provider decisions.**
  - the change of the `resources` map (added, updated, removed, unchanged);
  - the module name, and unknown parameters and unknown set values;
  - `shouldDiff` and delete gating;
  - placeholder substitution and parameter merging;
  - the namespace auto-creation loop;
  - the diff-message map of the custom diff;
  - the guards and call sequences of create, update and delete;
  - `sanitizeDiff` and `prettyResults`.
- **`kaexpand` and `ShortRegion`.** The parameter parsing of the `kaexpand` tool, and
  `Config.ShortRegion`.

Everything is a pure function over immutable datatypes. Strings are `seq<char>`, and
Go's `strings` package, `%d`, `%06d` and Go string ordering are modelled exactly in
`GoStrings` and `Decimal`. The following are parameters (oracles):

- the kubectl subprocess: `run: Invocation -> CmdResult`;
- the cluster client and the Kubernetes namespace API;
- the YAML header parser, the JSON decoder and the md5 hash.

Go's map iteration order is random. Wherever that order is observable, it is an input
sequence, constrained to list the map's keys exactly once. This applies to:

- the removed identifiers handed to delete;
- the identifiers of a profile delete;
- the namespaces to create.

A Go nil-pointer panic is modelled as an explicit outcome: `Listing.Panicked`,
`NamespacesOutcome.Crashed`, `DiffOutcome.DiffCrashed` and `Attempt.Crashed`.

Modules follow the source files:

| module | source file |
|---|---|
| `Manifests`, `DocSplit`, `ManifestOrder` | pkg/cluster/kube/manifests.go (the separator is defined in ordered_client.go) |
| `ApiResources` | pkg/cluster/kube/resources.go |
| `OrderedClient` | pkg/cluster/kube/ordered_client.go |
| `KubeClusterClient` | pkg/cluster/kube_client.go |
| `DiffResults` | pkg/cluster/diff/results.go |
| `ClusterConfig` | pkg/cluster/config.go |
| `ResourceData` | pkg/provider/resource_data.go |
| `ProviderContext` | pkg/provider/provider_context.go |
| `ResourceProfile` | pkg/provider/resource_profile.go |
| `Format` | pkg/provider/format.go |
| `KaExpand` | cmd/kaexpand/main.go |

`Wrappers`, `GoStrings`, `Decimal` and `Assoc` are support modules. `Assoc` holds the
semantics of assigning a sequence of pairs into a Go map, where the last write wins.

The diff arguments are `--kubeconfig <path> diff -R`, and the external diff command is
passed in `KUBECTL_EXTERNAL_DIFF`.

## Model

| member | source | states |
|---|---|---|
| Manifests.ListContains | pkg/cluster/kube/manifests.go:159-166 | the linear search is true exactly when the string is an element of the list |
| Manifests.IgnorableLineTrimmed | pkg/cluster/kube/manifests.go:168-178 | a line carries no content exactly when, trimmed of white space, it is empty or starts with `#` |
| Manifests.AllIgnorable | pkg/cluster/kube/manifests.go:170-177 | the early-exit line loop is true exactly when every line is ignorable |
| Manifests.IsEmptyDocument | pkg/cluster/kube/manifests.go:168-178 | a document is empty exactly when every line of its `\n` split is blank or a comment |
| Manifests.ProcessDocument | pkg/cluster/kube/manifests.go:107-145 | each trimmed document falls into exactly one case. It is skipped as blank iff empty, and as unparseable iff the header decoder fails. It is skipped for missing metadata iff metadata is absent and the kind is not allowlisted. It hits the nil dereference iff metadata is absent and the kind is allowlisted. A kept manifest holds the trimmed text, its hash, and the id `version.kind.namespace.name` |
| Manifests.Collect | pkg/cluster/kube/manifests.go:107-146 | the per-file loop fails exactly when some document hits the nil dereference, and otherwise keeps at most one manifest per document |
| Manifests.CollectAppend | pkg/cluster/kube/manifests.go:107-146 | documents are processed independently: the manifests of a concatenation are the concatenation of the manifests |
| Manifests.SkippedDropped | pkg/cluster/kube/manifests.go:121-128 | a skipped document (blank, unparseable or without metadata) is dropped and the documents around it are processed as if it were absent |
| Manifests.Walk | pkg/cluster/kube/manifests.go:88-153 | a walk that ends without error visited every entry successfully and returns what it started with plus every entry's manifests; the manifests gathered so far are never lost |
| Manifests.WalkGathersAll | pkg/cluster/kube/manifests.go:84-156 | a walk whose every entry is read ends without error, returning every entry's manifests in visiting order |
| Manifests.WalkPanics | pkg/cluster/kube/manifests.go:137-143 | a nil dereference while reading an entry makes the whole listing panic |
| Manifests.GetManifests | pkg/cluster/kube/manifests.go:84-156 | a listing without error has read every entry successfully |
| Manifests.GetManifestsAll | pkg/cluster/kube/manifests.go:84-156 | when every entry is read, the listing has no error and holds exactly the manifests of all entries, in order |
| Manifests.EntryManifests | pkg/cluster/kube/manifests.go:90-102 | a walk error or an unreadable `.yaml` file is an error carrying its message; directories and other files give no manifests |
| Manifests.WalkStopsAtError | pkg/cluster/kube/manifests.go:151-153 | the first failing entry ends the walk: its error is returned with exactly the manifests of the entries before it |
| Manifests.IgnoredEntry | pkg/cluster/kube/manifests.go:95-97 | directories and files whose name does not end in `.yaml` contribute nothing |
| Manifests.DecodeId | pkg/cluster/kube/manifests.go:249-270 | whenever the decoder yields components, re-encoding them gives back the identifier, and the kind and namespace hold no `.` |
| Manifests.ManifestIdToComponents | pkg/cluster/kube/manifests.go:249-270 | any non-zero result re-encodes to the identifier it came from |
| Manifests.DecodeEncode | pkg/cluster/kube/manifests.go:137-143 | round trip: decoding an encoded id returns its four parts, for a well-formed version and kind and namespace without `.` (the name may hold dots) |
| Manifests.DecodeTooFewFields | pkg/cluster/kube/manifests.go:259-262 | a remainder with only two fields decodes to nothing, not to an error |
| Manifests.DecodeExamples | pkg/cluster/kube/manifests_test.go:136-153 | the Service id of the tests decodes into its parts; `v1.Service.argo-rollouts` and `bad id` give the zero components |
| DocSplit.SpaceRunEnd | pkg/cluster/kube/ordered_client.go:24 | `\s*` is greedy: the run ends at the first non-space character |
| DocSplit.NextMatchLeftmost | pkg/cluster/kube/ordered_client.go:24 | the separator match the splitter takes is the leftmost one |
| DocSplit.SplitReassembles | pkg/cluster/kube/ordered_client.go:24 | splitting loses nothing: the pieces rewoven with the matched separators give back the text, and there is one more piece than separators |
| DocSplit.SplitDocuments | pkg/cluster/kube/manifests.go:104-105 | the documents of a file, woven back with the removed separators, give the trimmed file text; none contains a newline followed by `---` |
| DocSplit.SeparatorsAreShaped | pkg/cluster/kube/ordered_client.go:24 | every removed separator is white space ending in a newline, then `---` and white space; only the first may start at the beginning of the text |
| DocSplit.PiecesHaveNoSeparator | pkg/cluster/kube/ordered_client.go:24 | no piece contains a newline followed by `---` |
| ManifestOrder.Rank | pkg/cluster/kube/manifests.go:183-204 | a kind's rank is its position in `KindOrder`, and every kind not listed shares rank `len(KindOrder)` |
| ManifestOrder.KindOrderDistinct | pkg/cluster/kube/manifests.go:18-53 | `KindOrder` lists each kind once, so the rank map has `len(KindOrder)` entries |
| ManifestOrder.RankIsPosition | pkg/cluster/kube/manifests.go:185-187 | the rank of the k-th kind is k |
| ManifestOrder.KeyOf | pkg/cluster/kube/manifests.go:199-227 | the sort key is (rank, namespace, name); the empty kind gets the last rank, and a manifest without metadata or with an empty kind has empty namespace and name |
| ManifestOrder.KeyLessTransitive | pkg/cluster/kube/manifests.go:229-237 | the comparator is transitive |
| ManifestOrder.KeyLessTotal | pkg/cluster/kube/manifests.go:229-237 | the comparator is total on distinct keys |
| ManifestOrder.KeyLessIrreflexive | pkg/cluster/kube/manifests.go:229-237 | no key sorts before itself |
| ManifestOrder.SortManifests | pkg/cluster/kube/manifests.go:182-240 | the result is sorted by the comparator and is a permutation of the input |
| ManifestOrder.SortedRanks | pkg/cluster/kube/manifests.go:229-235 | in a sorted sequence ranks never decrease and unknown kinds come last |
| ManifestOrder.SortedKeysUnique | pkg/cluster/kube/manifests.go:189-239 | any two sorted permutations of the same manifests agree key by key, so the unstable sort's key sequence is determined |
| ManifestOrder.FixtureOrder | pkg/cluster/kube/manifests_test.go:89-106 | the test's ConfigMap, ClusterRole, ServiceAccount and ClusterRoleBinding sort to ConfigMap, ServiceAccount, ClusterRole, ClusterRoleBinding |
| ApiResources.ColumnStarts | pkg/cluster/kube/resources.go:26-38 | the column starts are increasing and are exactly the header indices where a non-space follows a space or the start |
| ApiResources.ParseRow | pkg/cluster/kube/resources.go:86-108 | cell j runs from column start j to the next start (the last cell to the row end), right-trimmed of blanks; cells stop at the first column that does not fit in the row |
| ApiResources.ShortNames | pkg/cluster/kube/resources.go:63-69 | an empty cell gives no names; otherwise the names are comma-free and join back to the cell |
| ApiResources.RowResource | pkg/cluster/kube/resources.go:71-80 | a resource takes name, api version and kind from cells 0, 2 and 4; it is namespaced iff cell 3 is exactly `true` |
| ApiResources.ParseResourcesTable | pkg/cluster/kube/resources.go:40-45 | a header without exactly five columns is refused with its column count |
| ApiResources.TableContent | pkg/cluster/kube/resources.go:17-84 | the table parses iff the header has five columns and every non-blank row has five cells; the resources are then those rows', in row order |
| ApiResources.ParseRowsContent | pkg/cluster/kube/resources.go:47-81 | blank rows are skipped, the first short row is an error, and each kept row gives one resource in order |
| ApiResources.ParseRowsError | pkg/cluster/kube/resources.go:55-61 | every failure is the short-row error `Unexpected number of columns in row ...` |
| ApiResources.BadInputRefused | pkg/cluster/kube/resources_test.go:48-49 | `bad input` is refused: two columns, not five |
| ApiResources.ShortNamesExamples | pkg/cluster/kube/resources_test.go:25-39 | empty, `cs` and `cm,cmx` give the test's short-name lists |
| OrderedClient.FileName | pkg/cluster/kube/ordered_client.go:92-101 | the staged file name is `%06d_<name>_<namespace>_<kind>.yaml`: the six-digit zero-padded index (below 10^6), then the name, namespace and kind separated by `_` |
| OrderedClient.NameOf | pkg/cluster/kube/ordered_client.go:84-90 | a manifest without metadata contributes an empty name token; otherwise its metadata name |
| OrderedClient.NamespaceOf | pkg/cluster/kube/ordered_client.go:84-90 | a manifest without metadata contributes an empty namespace token; otherwise its metadata namespace |
| OrderedClient.FileNameOrder | pkg/cluster/kube/ordered_client.go:80-101 | below 10^6 a smaller index gives a lexicographically smaller file name, whatever the manifests |
| OrderedClient.StageFiles | pkg/cluster/kube/ordered_client.go:80-107 | one file per sorted manifest, holding its contents verbatim; missing metadata gives empty name and namespace tokens |
| OrderedClient.StagedNamesIncrease | pkg/cluster/kube/ordered_client.go:80-101 | the staged names strictly increase, so kubectl's lexicographic order is the sorted order |
| OrderedClient.ReadOptionFlags | pkg/cluster/kube/ordered_client.go:117-128 | the optional apply flags (`--server-side true`, `-v 8`, `-o FORMAT`, `--dry-run`) appear in fixed order and read back into exactly the options; the reader refuses `-o` with an empty format |
| OrderedClient.OptionFlags | pkg/cluster/kube/ordered_client.go:117-128 | `-o` appears exactly when the format is not empty, together with the format; `--dry-run` appears for a dry run |
| OrderedClient.ReadOptionsEmptyFormat | pkg/cluster/kube/ordered_client.go:123-125 | a flag vector that reads back with no format holds no `-o` at all |
| OrderedClient.ApplyArgs | pkg/cluster/kube/ordered_client.go:109-128 | apply arguments are `apply --kubeconfig P -R -f DIR` followed by flags that read back as the options; with an empty format there is no `-o` (ReadOptionsEmptyFormat) |
| OrderedClient.Apply | pkg/cluster/kube/ordered_client.go:55-142 | a listing error or panic is passed on. Otherwise the sorted manifests are staged and kubectl runs once with the apply arguments and the extra environment; the output is returned only when asked for |
| OrderedClient.ApplyStagesSorted | pkg/cluster/kube/ordered_client.go:78-107 | the files staged by apply hold the sorted manifests' contents under strictly increasing names |
| OrderedClient.ReadFileFlagsBack | pkg/cluster/kube/ordered_client.go:171-173 | the `-f path` pairs read back as the config paths in input order |
| OrderedClient.DiffArgs | pkg/cluster/kube/ordered_client.go:164-180 | diff arguments are `--kubeconfig P diff -R`, one `-f` per path in order, then the server-side and debug flags |
| OrderedClient.DiffEnv | pkg/cluster/kube/ordered_client.go:182-209 | the environment is `KUBECTL_EXTERNAL_DIFF=` followed by `kadiff` (structured) or the script path, then the extra entries in order |
| OrderedClient.Diff | pkg/cluster/kube/ordered_client.go:145-216 | one kubectl run with the diff arguments and environment |
| OrderedClient.ResourceNames | pkg/cluster/kube/ordered_client.go:244-248 | the kind-to-resource-name map has exactly the kinds of the API resources |
| OrderedClient.ResourceNamesLastWins | pkg/cluster/kube/ordered_client.go:246-248 | when several API resources share a kind, the last one's name wins |
| OrderedClient.DeleteArgs | pkg/cluster/kube/ordered_client.go:262-277 | delete arguments are `--kubeconfig P --ignore-not-found=true --wait=false delete <resource> <name>`, plus `-n <ns>` only for a non-empty namespace |
| OrderedClient.DecodeAll | pkg/cluster/kube/ordered_client.go:232-238 | every identifier is decoded, unparseable ones to the zero components |
| OrderedClient.DeletePlanRuns | pkg/cluster/kube/ordered_client.go:252-277 | one run per identifier whose kind has a resource name, in order, with that identifier's arguments |
| OrderedClient.DeletePlan | pkg/cluster/kube/ordered_client.go:252-283 | at most one run per identifier, each a `delete` with nothing added to the environment |
| OrderedClient.UnknownKindSkipped | pkg/cluster/kube/ordered_client.go:253-260 | an identifier whose kind has no resource name issues no run |
| OrderedClient.FirstFailure | pkg/cluster/kube/ordered_client.go:279-286 | the index of the first failing run: every earlier run succeeds |
| OrderedClient.OutputsAt | pkg/cluster/kube/ordered_client.go:287 | each collected output is the trimmed output of its run |
| OrderedClient.RunPlan | pkg/cluster/kube/ordered_client.go:252-290 | runs are issued in order until one fails. That run's output and error are returned and no later run is issued; otherwise the trimmed outputs are joined with `\n` |
| OrderedClient.Delete | pkg/cluster/kube/ordered_client.go:226-291 | an api-resources error is returned before any run. Otherwise the plan built from the decoded ids and the resource names is run until its first failure |
| KubeClusterClient.NewKubeClient | pkg/cluster/kube_client.go:38-69 | construction fails with `Must provide a kubeconfig` exactly when the path is empty; otherwise the ordered client gets the configuration's fields |
| KubeClusterClient.ExecApply | pkg/cluster/kube_client.go:190-203 | the ordered apply always captures output and uses the given format and dry-run setting |
| KubeClusterClient.Apply | pkg/cluster/kube_client.go:72-78 | a plain apply has an empty format, so no `-o` flag (ReadOptionsEmptyFormat), and no `--dry-run` |
| KubeClusterClient.ApplyStructured | pkg/cluster/kube_client.go:82-121 | with a readable listing the JSON dry run is always issued first. A failed dry run stops with its output in the error. A decoded dry run is always followed by the real JSON apply, and an undecodable one stops with the decoder's error. A failed real apply reports its output. When both succeed, the result is the pairing of the two decoded object lists, or the second decoding's error; nothing runs a third time. Every run carries the client's extra environment |
| KubeClusterClient.StripJsonPrefix | pkg/cluster/kube_client.go:166-171 | everything before the first `{` is dropped; text with no `{`, or one at index 0, is unchanged |
| KubeClusterClient.StripJsonPrefixIdempotent | pkg/cluster/kube_client.go:166-171 | stripping twice is stripping once |
| KubeClusterClient.Diff | pkg/cluster/kube_client.go:133-148 | the raw diff returns the output, or an error that embeds the output |
| KubeClusterClient.DiffStructured | pkg/cluster/kube_client.go:152-178 | the structured diff runs through `kadiff`; its output, stripped before the first `{`, is decoded, and a failure embeds the output |
| DiffResults.OperationNames | pkg/cluster/diff/results.go:11-18 | the three operations have distinct names, each of which parses back to its operation |
| DiffResults.ParseOperation | pkg/cluster/diff/results.go:14-18 | only `create`, `delete` and `update` are operations |
| DiffResults.ClippedRawDiff | pkg/cluster/diff/results.go:84-93 | a diff within the limit is returned as is. A longer one keeps its first `maxLen` characters followed by the marker `\n... (k chars omitted)`, whose `%d` count k is read back as the number of omitted characters (with ReadOmissionExact, no other text reads back) |
| DiffResults.ReadOmissionMarker | pkg/cluster/diff/results.go:86-90 | the `\n... (k chars omitted)` marker reads back as k |
| DiffResults.ReadOmissionExact | pkg/cluster/diff/results.go:86-90 | the marker reader accepts only `%d` digits (no leading zero), so the only text that reads as k is the marker for k |
| DiffResults.NumChangedLines | pkg/cluster/diff/results.go:97-102 | the result is the maximum of the added and removed counts |
| ClusterConfig.ShortRegion | pkg/cluster/config.go:70-78 | a region that does not split into three parts is unchanged. Otherwise the result is two characters of part 0, one of part 1 and all of part 2: dash-free and of length 3 + len(part 2) |
| ClusterConfig.ShortRegionOfParts | pkg/cluster/config.go:71-77 | a region made of three dash-free parts shortens to their prefixes and the last part |
| ClusterConfig.ShortRegionUnchanged | pkg/cluster/config.go:72-75 | a region with no dash is returned unchanged |
| ClusterConfig.ShortRegionExample | pkg/cluster/config.go:68-77 | `us-west-2` shortens to `usw2` |
| ResourceData.ModuleName | pkg/provider/resource_data.go:49-57 | the module name is `module`, or a `/`-free directory under `.terraform/modules/` that prefixes the source |
| ResourceData.ModuleNameOfModulePath | pkg/provider/resource_data.go:49-57 | a source `.terraform/modules/<m>/...` has module name `<m>` |
| ResourceData.ModuleNameOfPlainSource | pkg/provider/resource_data.go:49-57 | a source with no `/` is named `module` |
| ResourceData.ClassifyPrior | pkg/provider/resource_data.go:81-93 | each prior key lands in exactly one of removed (absent from the plan), updated (hash changed) and unchanged |
| ResourceData.AddedKeys | pkg/provider/resource_data.go:96-100 | added keys are exactly the planned keys absent from the prior map |
| ResourceData.GetResourceChanges | pkg/provider/resource_data.go:66-103 | the four groups hold exactly the removed, added, updated and unchanged keys of the set-based reference definition |
| ResourceData.ChangesPartition | pkg/provider/resource_data.go:66-103 | removed, updated and unchanged partition the prior keys; added, updated and unchanged partition the planned keys |
| ResourceData.ClassifyPriorDistinct | pkg/provider/resource_data.go:81-93 | each identifier appears at most once in its group |
| ResourceData.NothingRemovedFromItself | pkg/provider/resource_data.go:81-84 | comparing a map with itself removes nothing |
| ResourceData.ResourceChangesExample | pkg/provider/resource_data_test.go:46-81 | the test's maps give added {4,5}, updated {2}, removed {3}, unchanged {1} |
| ResourceData.HasUnknownSetValues | pkg/provider/resource_data.go:115-129 | set values are unknown iff some element's value is the unknown sentinel |
| ProviderContext.ShouldDiff | pkg/provider/provider_context.go:172-183 | `no_diff` always wins; otherwise a forced diff always diffs; otherwise a diff runs iff the resources changed |
| ProviderContext.ForceDiffsMonotone | pkg/provider/provider_context.go:172-183 | forcing diffs never suppresses one, and `no_diff` suppresses a diff even when diffs are forced |
| ProviderContext.ApplyDiagnostics | pkg/provider/provider_context.go:192-232 | an apply error gives exactly one error diagnostic carrying the output. A success gives a quoted-output warning only in verbose mode, and nothing otherwise |
| ProviderContext.VerbosityKeepsErrors | pkg/provider/provider_context.go:192-232 | verbosity never changes whether an apply reports an error, nor the error diagnostic itself |
| ProviderContext.DeleteIds | pkg/provider/provider_context.go:238-288 | always exactly one diagnostic. Without deletes allowed there is no client call and a warning naming the module. Otherwise the ids go to the client in one call: an error diagnostic carries its output, a success is a `kubectl delete successful` warning |
| ProviderContext.SetText | pkg/provider/provider_context.go:73-92 | an unknown set value is replaced by its placeholder, or by the default placeholder when it has none; known values pass through |
| ProviderContext.DecodeSets | pkg/provider/provider_context.go:73-98 | decoding succeeds iff every set text decodes, giving name/value pairs in order; otherwise the first failure's error is returned |
| ProviderContext.ExpandParameters | pkg/provider/provider_context.go:66-98 | the parameters are the string parameters plus the set names. Merging fails exactly when a set text fails to decode, and the error is that decoder error unchanged, for the first set element that fails |
| ProviderContext.ExpandSetWins | pkg/provider/provider_context.go:73-98 | a set element overrides the string parameter of its name, and the last element of a name decides |
| ProviderContext.ExpandKeepsLiteral | pkg/provider/provider_context.go:69-71 | a string parameter that no set element names keeps its string value |
| ProviderContext.UnknownSetValueUsesPlaceholder | pkg/provider/provider_context.go:78-92 | an unknown set value without a placeholder expands to the decoded default placeholder |
| ProviderContext.ResourcesMap | pkg/provider/provider_context.go:158-161 | the resources map has exactly the manifests' ids as keys |
| ProviderContext.ResourcesMapLastWins | pkg/provider/provider_context.go:158-161 | each id maps to the hash of its last manifest |
| ProviderContext.CreateMissing | pkg/provider/provider_context.go:321-342 | only namespaces missing from the API are created. A run without error created all of them, each succeeding or already existing. An error ends the loop at the namespace whose creation failed for another reason |
| ProviderContext.CreateNamespaces | pkg/provider/provider_context.go:294-345 | disabled means nothing happens. A manifest without metadata crashes, and an API listing error is returned before any creation. Otherwise only non-empty manifest namespaces missing from the API are created. Every creation but the last succeeded or only found the namespace already there. An error is the last creation's own error, and it is not an "already exists" error. With no error, every missing namespace was created |
| ResourceProfile.DiffMessage | pkg/provider/resource_profile.go:340-358 | verbose mode gives the sanitized raw diff; otherwise create and delete give line-count messages and anything else the sanitized raw diff |
| ResourceProfile.MessagePairs | pkg/provider/resource_profile.go:339-359 | one (name, message) pair per diffed object, in order |
| ResourceProfile.MarkedMessages | pkg/provider/resource_profile.go:361-369 | every removed id is marked with the to-be-deleted or to-be-removed message, per `allow_deletes` |
| ResourceProfile.DiffMap | pkg/provider/resource_profile.go:339-375 | `"" -> NO DIFFS FOUND` appears only when nothing was diffed or removed and the resources changed; otherwise the keys are the diffed names and the removed ids |
| ResourceProfile.DiffMapMessage | pkg/provider/resource_profile.go:340-359 | a diffed object that is not removed maps to its message, the last one per name |
| ResourceProfile.RunDiff | pkg/provider/resource_profile.go:318-379 | the full diff succeeds iff namespace creation and the cluster diff succeed. It crashes exactly when namespace creation crashes. A failed namespace creation is returned as is, with only the creation calls. Otherwise the calls are the creations followed by the diff call, and a failed cluster diff is returned with its own error |
| ResourceProfile.CustomDiffCannotRun | pkg/provider/resource_profile.go:213-236 | without a host or kubeconfig the diff is `DIFFS UNKNOWN`, no files are shown, resources and their hash are computed, and nothing is called; this check precedes the unknown-parameter one |
| ResourceProfile.CustomDiff | pkg/provider/resource_profile.go:195-389 | a failure or crash happens only when the provider can run and the parameters are known. A planned result that made calls ends with the diff of the expanded directory |
| ResourceProfile.CustomDiffFails | pkg/provider/resource_profile.go:318-332 | a failed custom diff of an expansion carries the namespace creation's error after the creations made. When every creation went through, it carries the cluster diff's error, after the creations and the diff call |
| ResourceProfile.CustomDiffUnknownParameters | pkg/provider/resource_profile.go:237-262 | with unknown parameters the diff says `DIFFS UNKNOWN because one or more parameters are unknown`, no files are shown, resources and hash are computed, and nothing is called |
| ResourceProfile.CustomDiffExpandFails | pkg/provider/resource_profile.go:264-267 | a failed expansion fails the diff with its error before any call |
| ResourceProfile.CustomDiffPlan | pkg/provider/resource_profile.go:264-306 | files are shown only when asked for. Unknown set values leave resources and hash computed, and otherwise they are the expansion's. `no_diff` gives an empty diff and no calls |
| ResourceProfile.CustomDiffFull | pkg/provider/resource_profile.go:318-379 | a full diff calls the cluster diff last, and its diff map is built from the diff results and the removed ids |
| ResourceProfile.CreateProfile | pkg/provider/resource_profile.go:125-180 | create refuses without a host or kubeconfig, reports an expansion error, and otherwise applies once; it records the resource iff there is no error diagnostic |
| ResourceProfile.CreateProfileVerbosity | pkg/provider/resource_profile.go:125-180 | verbose applies change neither the calls of a create nor whether the resource is recorded or an error reported |
| ResourceProfile.DeleteCalls | pkg/provider/resource_profile.go:405-413 | each id list handed to delete is one delete call |
| ResourceProfile.UpdateCalls | pkg/provider/resource_profile.go:391-456 | update first deletes exactly the removed ids (when allowed and some were removed). It applies at most once: only for a non-empty planned diff, a successful expansion and a successful delete |
| ResourceProfile.UpdateProfile | pkg/provider/resource_profile.go:391-456 | without a host or kubeconfig nothing is called; otherwise the delete calls of the removed ids come first. A failed delete returns its diagnostics with nothing written, and otherwise the state is written. For a non-empty planned diff, the diagnostics are the delete's followed by the expansion error or by the apply's diagnostics. With an empty planned diff the state is written iff nothing failed |
| ResourceProfile.UpdateErrors | pkg/provider/resource_profile.go:402-446 | an update reports an error exactly when the delete of the removed ids failed, or when the planned diff was not empty and the expansion or the apply failed |
| ResourceProfile.DeleteRemovedCalls | pkg/provider/resource_profile.go:405-413 | the delete step calls delete once with the removed ids when allowed and some were removed, never applies, and fails exactly when that call fails |
| ResourceProfile.DeleteProfile | pkg/provider/resource_profile.go:458-479 | delete refuses only when it cannot run and deletes are allowed. Otherwise every resource id goes to one delete call, or, when deletes are not allowed, to a warning. Delete writes no attribute of the resource |
| ResourceProfile.CreateUpdateUpdateApplies | pkg/provider/resource_profile_test.go:294-310 | a create, an update with a planned diff and an update without one apply twice and delete nothing |
| ResourceProfile.NoDeletesWithoutAllowDeletes | pkg/provider/resource_profile_test.go:609-621 | with deletes not allowed, neither update nor delete ever calls the client's delete |
| Format.KeyAt | pkg/provider/format.go:11 | the key alternation (`creationTimestamp`, then `uid`) followed by `:` is found exactly where one of the keys and a colon start |
| Format.MatchAtComplete | pkg/provider/format.go:11 | every text with the expression's shape (white space, a key, `:`, a non-empty rest of line) is matched there, with the match ending at the line end |
| Format.SanitizeLine | pkg/provider/format.go:13-15 | a masked line keeps its white space and key and gets `: OMITTED` in place of its value |
| Format.SanitizeLineStable | pkg/provider/format.go:9-15 | a masked line sanitizes to the same text whatever its value |
| Format.SanitizeWithoutColon | pkg/provider/format.go:13-15 | text with no `:` is unchanged |
| Format.SanitizeEmptyValue | pkg/provider/format.go:11 | a key with nothing after the colon is not masked |
| Format.SanitizeFromNoMatch | pkg/provider/format.go:13-15 | where no match starts the text is copied unchanged |
| Format.SanitizeDiff | pkg/provider/format.go:13-15 | a text in which the expression matches nowhere is returned unchanged |
| Format.QuoteLines | pkg/provider/format.go:18-25 | exactly the non-empty lines (the reference `NonBlank`), in order, each prefixed with `> `; nothing is kept iff all lines are empty |
| Format.PrettyResults | pkg/provider/format.go:17-28 | the result is empty iff every line of the input is empty |
| Format.PrettyResultsLines | pkg/provider/format.go:17-28 | the output splits back into exactly the quoted non-empty lines: joined with `\n`, in order, with no trailing newline |
| Format.PrettyResultsNoBlankLine | pkg/provider/format.go:21-24 | no output line is blank: each starts with `> ` and has content after it |
| KaExpand.KeyValue | cmd/kaexpand/main.go:171-172 | an entry has a key iff it contains `=`, and the key holds no `=` |
| KaExpand.KeyValueSplits | cmd/kaexpand/main.go:171 | key, `=` and value make the entry again: it is cut at its first `=` |
| KaExpand.KeyValueOfJoined | cmd/kaexpand/main.go:171-176 | `key=value` with a `=`-free key reads back as (key, value) |
| KaExpand.ValueKeepsEquals | cmd/kaexpand/main.go:171 | `key=a=b` gives key `key` and value `a=b` |
| KaExpand.LiteralPairs | cmd/kaexpand/main.go:170-177 | the `-p` entries parse iff every entry has `=`, each into its key and string value |
| KaExpand.LiteralPairsError | cmd/kaexpand/main.go:172-174 | the first `-p` entry without `=` is the error, naming the entry |
| KaExpand.JsonPairs | cmd/kaexpand/main.go:179-191 | the `-j` entries parse iff each has `=` and a decodable value |
| KaExpand.JsonPairsError | cmd/kaexpand/main.go:181-188 | the first bad `-j` entry is the error: a format error or its decode error |
| KaExpand.ToClusterConfig | cmd/kaexpand/main.go:160-194 | the conversion succeeds iff all entries are good. The cluster fields are copied unchanged, and the parameter keys are the keys of the `-p` and `-j` entries |
| KaExpand.ParameterErrorFirst | cmd/kaexpand/main.go:170-177 | a bad `-p` entry is reported whatever the `-j` entries hold |
| KaExpand.JsonParameterWins | cmd/kaexpand/main.go:179-191 | the last `-j` entry of a key decides that parameter, over any `-p` entry |
| KaExpand.LiteralParameterKept | cmd/kaexpand/main.go:170-177 | the last `-p` entry of a key that no `-j` entry names keeps its string value |

## Left out

- File system: walking, reading, writing, temporary directories, cleanup and keep-configs. The walked entries and their contents are an input sequence (`Manifests.Entry`), and staged files are returned as values.
- Subprocesses and clients: `runKubectl`/`runKubectlOutput`, the cluster client and the Kubernetes namespace API are function parameters.
- YAML header parsing, JSON decoding and md5 are function parameters. These are foreign libraries.
- `manifestsHash` is an input field of the expansion. `clusterConfigHash` and the template expansion in `expand` are not modelled: `util.ApplyTemplate` is not part of this model. The expansion is an input `Result`.
- `KubeJSONToObjects`, `ObjsToResults` and the sorted-results helpers of `ApplyStructured` are the oracles `toObjects` and `toResults`. The JSON decoding of `DiffStructured`, together with its `sortedDiffResults`, is the oracle `decode`. Their code is not part of this model.
- `getApiResources` and `DiffKube` are not part of this model. Their outcomes are inputs.
- The raw-diff script in `OrderedClient.Diff`: the source joins the temporary directory with the script's text and writes an empty file there. The model takes the resulting command path as the parameter `scriptPath`.
- `KubeClient.Delete` only forwards to the ordered client's `Delete`, which `OrderedClient.Delete` models.
- `resourceProfileRead`, logging, and the Terraform schema and SDK wiring are framework code. `SetNewComputed` is shown as a `Computed` field value.
- `parseResourcesTable`'s "No api-resources found" branch cannot be taken, because `strings.Split` never returns an empty list. The model has no such case.
- Go's map iteration order is an input in the three places it is observable.
- Manifests.DecodeExamples: the `apps/v1` and CRD identifiers of the tests are not proved concretely, because the recursive string functions on long literals are too costly for the solver. They are covered by `Manifests.DecodeEncode`.
- ApiResources.TableContent: the three-row table of the tests is not proved as a concrete example. The general statement and the short-name and bad-input examples are.
- ResourceProfile.DiffMap: for a name diffed more than once, its contract does not say which message wins. `ResourceProfile.DiffMapMessage` states it for the last occurrence.
- ResourceProfile.CustomDiff: with unknown set values the planned resources compared against the prior state are the data's planned value. The placeholder values of `SetNewComputed` are not modelled further.
- DiffResults.ClippedRawDiff: `maxLen` is a `nat`. A negative Go `int` makes the source's slice panic, and that case is not modelled.
- ClusterConfig.ShortRegion: requires the first part of a three-part region to have at least two characters and the second at least one. Shorter parts make the source's slicing panic.
- Text is a sequence of characters, while Go slices strings by byte. The two offsets agree for ASCII text only, so byte-exact slicing of non-ASCII text is not modelled. This affects `ClippedRawDiff`, `ShortRegion`, the table columns and the file-name padding.
