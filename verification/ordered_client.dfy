/** `OrderedClient` (pkg/cluster/kube/ordered_client.go): the kubectl invocations behind
    apply, diff and delete. Temporary directories and files are not created here: a staged
    file is a name and its contents, and kubectl is the oracle `run`, which maps an
    invocation to its combined output and error. */
module OrderedClient {
  import opened Wrappers
  import opened GoStrings
  import opened Decimal
  import opened Manifests
  import opened ManifestOrder
  import opened ApiResources
  import opened Assoc

  datatype Client = Client(
    kubeConfigPath: string,
    keepConfigs: bool,
    extraEnv: seq<string>,
    debug: bool,
    serverSide: bool)

  /** A kubectl run: its argument vector and the variables added to the environment. */
  datatype Invocation = Invocation(args: seq<string>, env: seq<string>)

  /** What kubectl returned: its combined output and, when it failed, the error. */
  datatype CmdResult = CmdResult(output: string, err: Option<string>)

  /** A manifest written out for `kubectl apply -R`. */
  datatype StagedFile = StagedFile(name: string, contents: string)

  // ---------------------------------------------------------------- file names

  /** The name and namespace of a manifest, empty when it has no metadata. */
  function NameOf(m: Manifest): (r: string)
    ensures m.head.metadata.None? ==> r == ""
    ensures m.head.metadata.Some? ==> r == m.head.metadata.value.name
  {
    if m.head.metadata.Some? then m.head.metadata.value.name else ""
  }

  function NamespaceOf(m: Manifest): (r: string)
    ensures m.head.metadata.None? ==> r == ""
    ensures m.head.metadata.Some? ==> r == m.head.metadata.value.namespace
  {
    if m.head.metadata.Some? then m.head.metadata.value.namespace else ""
  }

  /** `_<name>_<namespace>_<kind>.yaml`, what follows the index in a staged file's name. */
  function FileSuffix(m: Manifest): string {
    "_" + NameOf(m) + "_" + NamespaceOf(m) + "_" + m.head.kind + ".yaml"
  }

  /** `%06d_%s_%s_%s.yaml` of the manifest's position, name, namespace and kind. */
  function FileName(index: nat, m: Manifest): (name: string)
    ensures index < Pow10(6) ==> |name| > 6 && name[..6] == ZeroPad(index, 6) && name[6] == '_'
    ensures HasSuffix(name, ".yaml")
    ensures name == ZeroPad(index, 6) + "_" + NameOf(m) + "_" + NamespaceOf(m) + "_" + m.head.kind + ".yaml"
  {
    var p := ZeroPad(index, 6);
    var name := p + FileSuffix(m);
    assert name == p + "_" + NameOf(m) + "_" + NamespaceOf(m) + "_" + m.head.kind + ".yaml";
    assert name[|name| - 5..] == ".yaml";
    if index < Pow10(6) then
      ZeroPadFixed(index, 6);
      assert name[..6] == p;
      name
    else name
  }

  /** kubectl walks a directory in lexicographic order, so below a million manifests the
      staged names put the manifests in the order of their positions. */
  lemma FileNameOrder(i: nat, j: nat, a: Manifest, b: Manifest)
    requires i < j < Pow10(6)
    ensures Less(FileName(i, a), FileName(j, b))
  {
    ZeroPadOrder(i, j, 6);
    LessExtend(ZeroPad(i, 6), ZeroPad(j, 6), FileSuffix(a), FileSuffix(b));
  }

  /** The files `Apply` writes: one per manifest, in the given order, holding its text. */
  function StageFiles(sorted: seq<Manifest>): (files: seq<StagedFile>)
    ensures |files| == |sorted|
    ensures forall i :: 0 <= i < |files| ==>
      files[i].contents == sorted[i].contents && files[i].name == FileName(i, sorted[i])
  {
    seq(|sorted|, i requires 0 <= i < |sorted| => StagedFile(FileName(i, sorted[i]), sorted[i].contents))
  }

  /** Listing the staged files by name lists the manifests in their sorted order. */
  lemma StagedInOrder(sorted: seq<Manifest>, i: nat, j: nat)
    requires i < j < |sorted| <= Pow10(6)
    ensures Less(StageFiles(sorted)[i].name, StageFiles(sorted)[j].name)
  {
    FileNameOrder(i, j, sorted[i], sorted[j]);
  }

  /** The staged names increase strictly along the sorted order. */
  lemma StagedNamesIncrease(sorted: seq<Manifest>)
    requires |sorted| <= Pow10(6)
    ensures forall i, j :: 0 <= i < j < |sorted| ==> Less(StageFiles(sorted)[i].name, StageFiles(sorted)[j].name)
  {
    forall i, j | 0 <= i < j < |sorted| ensures Less(StageFiles(sorted)[i].name, StageFiles(sorted)[j].name) {
      StagedInOrder(sorted, i, j);
    }
  }

  // ---------------------------------------------------------------- flags

  /** The optional flags shared by apply and diff. */
  datatype Options = Options(serverSide: bool, debug: bool, format: string, dryRun: bool)

  /** The optional flags in their fixed order: `--server-side true`, `-v 8`, `-o <format>`
      (only for a non-empty format), `--dry-run`. */
  function OptionFlags(o: Options): (flags: seq<string>)
    ensures "--dry-run" in flags <==> o.dryRun || o.format == "--dry-run"
    ensures o.format == "" ==> "-o" !in flags
    ensures o.format != "" ==> "-o" in flags && o.format in flags
  {
    (if o.serverSide then ["--server-side", "true"] else [])
    + (if o.debug then ["-v", "8"] else [])
    + (if o.format != "" then ["-o", o.format] else [])
    + (if o.dryRun then ["--dry-run"] else [])
  }

  predicate StartsWith(args: seq<string>, flag: seq<string>) {
    |flag| <= |args| && args[..|flag|] == flag
  }

  /** Reads the optional flags back, as kubectl would: an independent account of what the
      flag vector means. `-o` with an empty format is not a flag vector the client writes,
      so it is refused. */
  function ReadOptions(flags: seq<string>): Option<Options> {
    var (serverSide, t1) := ReadFlag(flags, ["--server-side", "true"]);
    var (debug, t2) := ReadFlag(t1, ["-v", "8"]);
    match ReadFormatDryRun(t2)
    case None => None
    case Some((format, dryRun)) => Some(Options(serverSide, debug, format, dryRun))
  }

  /** Whether a two-word flag leads the vector, and the vector after it. */
  function ReadFlag(flags: seq<string>, flag: seq<string>): (bool, seq<string>)
    requires |flag| == 2
  {
    if StartsWith(flags, flag) then (true, flags[2..]) else (false, flags)
  }

  /** The last two optional flags: `-o <format>` with a non-empty format, then `--dry-run`. */
  function ReadFormatDryRun(flags: seq<string>): Option<(string, bool)> {
    var hasFormat := |flags| >= 2 && flags[0] == "-o" && flags[1] != "";
    var format := if hasFormat then flags[1] else "";
    var rest := if hasFormat then flags[2..] else flags;
    if rest == [] then Some((format, false))
    else if rest == ["--dry-run"] then Some((format, true))
    else None
  }

  lemma ReadFormatDryRunFlags(format: string, dryRun: bool)
    ensures var c := if format != "" then ["-o", format] else [];
      var d := if dryRun then ["--dry-run"] else [];
      ReadFormatDryRun(c + d) == Some((format, dryRun))
  {
    var c := if format != "" then ["-o", format] else [];
    var d := if dryRun then ["--dry-run"] else [];
    if format != "" {
      assert (c + d)[0] == "-o" && (c + d)[1] == format;
      assert (c + d)[2..] == d;
    } else {
      assert c + d == d;
    }
  }

  /** The optional flags say exactly what was asked for. */
  lemma ReadOptionFlags(o: Options)
    ensures ReadOptions(OptionFlags(o)) == Some(o)
  {
    var f := OptionFlags(o);
    var a := if o.serverSide then ["--server-side", "true"] else [];
    var b := if o.debug then ["-v", "8"] else [];
    var c := if o.format != "" then ["-o", o.format] else [];
    var d := if o.dryRun then ["--dry-run"] else [];
    var rest2 := c + d;
    var rest1 := b + rest2;
    assert f == a + rest1;
    assert rest2 == [] || rest2[0] == "-o" || rest2[0] == "--dry-run";
    assert rest1 == [] || rest1[0] == "-v" || rest1[0] == rest2[0];
    ReadTail(a, rest1, ["--server-side", "true"], o.serverSide);
    ReadTail(b, rest2, ["-v", "8"], o.debug);
    ReadFormatDryRunFlags(o.format, o.dryRun);
  }

  /** A vector that reads back with no format holds no `-o` at all: in particular `-o ""`
      is not read as "no format". */
  lemma ReadOptionsEmptyFormat(flags: seq<string>)
    requires ReadOptions(flags).Some? && ReadOptions(flags).value.format == ""
    ensures "-o" !in flags
  {
    var (serverSide, t1) := ReadFlag(flags, ["--server-side", "true"]);
    var (debug, t2) := ReadFlag(t1, ["-v", "8"]);
    assert t2 == [] || t2 == ["--dry-run"];
    if debug { assert t1 == ["-v", "8"] + t2; }
    if serverSide { assert flags == ["--server-side", "true"] + t1; }
  }

  /** Reading a flag group at the front of a vector, when the rest cannot be mistaken for it. */
  lemma ReadTail(group: seq<string>, rest: seq<string>, flag: seq<string>, present: bool)
    requires |flag| == 2 && group == (if present then flag else [])
    requires !StartsWith(rest, flag)
    ensures ReadFlag(group + rest, flag) == (present, rest)
  {
    if present {
      assert (group + rest)[..2] == flag;
      assert (group + rest)[2..] == rest;
    } else {
      assert group + rest == rest;
    }
  }

  // ---------------------------------------------------------------- apply

  /** An argument vector that applies the directory `dir` with the options `o`. */
  predicate IsApplyArgs(args: seq<string>, kubeConfigPath: string, dir: string, o: Options) {
    && |args| >= 6
    && args[..6] == ["apply", "--kubeconfig", kubeConfigPath, "-R", "-f", dir]
    && ReadOptions(args[6..]) == Some(o)
  }

  /** `kubectl apply --kubeconfig <path> -R -f <dir>` and the optional flags. */
  function ApplyArgs(c: Client, tempDir: string, format: string, dryRun: bool): (args: seq<string>)
    ensures IsApplyArgs(args, c.kubeConfigPath, tempDir, Options(c.serverSide, c.debug, format, dryRun))
  {
    var base := ["apply", "--kubeconfig", c.kubeConfigPath, "-R", "-f", tempDir];
    var o := Options(c.serverSide, c.debug, format, dryRun);
    ReadOptionFlags(o);
    assert (base + OptionFlags(o))[6..] == OptionFlags(o);
    base + OptionFlags(o)
  }

  datatype ApplyOutcome =
    | Applied(files: seq<StagedFile>, invocation: Invocation, output: string, err: Option<string>)
    | ListingFailed(message: string)
    | ApplyPanicked

  /** `Apply`: the manifests under the paths (`listing`, what `GetManifests` returned) are
      sorted and staged in `tempDir`, then kubectl runs once on the directory with the
      client's extra environment. The output is passed on only when `output` asks for it. */
  function Apply(c: Client, listing: Listing, tempDir: string, output: bool, format: string,
                 dryRun: bool, run: Invocation -> CmdResult): (r: ApplyOutcome)
    ensures listing.Panicked? <==> r.ApplyPanicked?
    ensures listing.Listing? && listing.err.Some? <==> r.ListingFailed?
    ensures r.ListingFailed? ==> r.message == listing.err.value
    ensures r.Applied? ==>
      && listing.Listing? && listing.err.None?
      && r.invocation == Invocation(ApplyArgs(c, tempDir, format, dryRun), c.extraEnv)
      && r.files == StageFiles(SortManifests(listing.manifests))
      && r.err == run(r.invocation).err
      && r.output == (if output then run(r.invocation).output else "")
  {
    match listing
    case Panicked => ApplyPanicked
    case Listing(manifests, err) =>
      if err.Some? then ListingFailed(err.value)
      else
        var files := StageFiles(SortManifests(manifests));
        var inv := Invocation(ApplyArgs(c, tempDir, format, dryRun), c.extraEnv);
        var res := run(inv);
        Applied(files, inv, if output then res.output else "", res.err)
  }

  /** What `Apply` stages is the sorted manifests' contents, under names whose
      lexicographic order is that sorted order. */
  lemma ApplyStagesSorted(c: Client, listing: Listing, tempDir: string, output: bool, format: string,
                          dryRun: bool, run: Invocation -> CmdResult)
    requires listing.Listing? && listing.err.None? && |listing.manifests| <= Pow10(6)
    ensures Apply(c, listing, tempDir, output, format, dryRun, run).Applied?
    ensures var files := Apply(c, listing, tempDir, output, format, dryRun, run).files;
      var sorted := SortManifests(listing.manifests);
      && |files| == |listing.manifests|
      && (forall i :: 0 <= i < |files| ==> files[i].contents == sorted[i].contents)
      && (forall i, j :: 0 <= i < j < |files| ==> Less(files[i].name, files[j].name))
  {
    var sorted := SortManifests(listing.manifests);
    assert Apply(c, listing, tempDir, output, format, dryRun, run).files == StageFiles(sorted);
    assert |sorted| == |multiset(sorted)| == |listing.manifests|;
    StagedNamesIncrease(sorted);
  }

  // ---------------------------------------------------------------- diff

  /** `-f <path>` for each path, in order. */
  function FileFlags(paths: seq<string>): (flags: seq<string>)
    ensures |flags| == 2 * |paths|
  {
    if |paths| == 0 then [] else ["-f", paths[0]] + FileFlags(paths[1..])
  }

  /** Reads `-f <path>` pairs off the front of a vector; the rest is returned. */
  function ReadFileFlags(args: seq<string>): (r: (seq<string>, seq<string>))
    decreases |args|
  {
    if |args| >= 2 && args[0] == "-f" then
      var (paths, rest) := ReadFileFlags(args[2..]);
      ([args[1]] + paths, rest)
    else ([], args)
  }

  lemma {:induction false} ReadFileFlagsBack(paths: seq<string>, rest: seq<string>)
    requires |rest| == 0 || rest[0] != "-f"
    ensures ReadFileFlags(FileFlags(paths) + rest) == (paths, rest)
    decreases |paths|
  {
    if |paths| > 0 {
      var args := FileFlags(paths) + rest;
      assert args == ["-f", paths[0]] + (FileFlags(paths[1..]) + rest);
      assert args[2..] == FileFlags(paths[1..]) + rest;
      ReadFileFlagsBack(paths[1..], rest);
      assert [paths[0]] + paths[1..] == paths;
    } else {
      assert FileFlags(paths) + rest == rest;
    }
  }

  /** `kubectl --kubeconfig <path> diff -R`, a `-f` per config path, then the optional
      server-side and debug flags. */
  function DiffArgs(c: Client, configPaths: seq<string>): (args: seq<string>)
    ensures |args| >= 4 && args[..4] == ["--kubeconfig", c.kubeConfigPath, "diff", "-R"]
    ensures var (paths, flags) := ReadFileFlags(args[4..]);
      paths == configPaths && ReadOptions(flags) == Some(Options(c.serverSide, c.debug, "", false))
  {
    var base := ["--kubeconfig", c.kubeConfigPath, "diff", "-R"];
    var o := Options(c.serverSide, c.debug, "", false);
    var flags := OptionFlags(o);
    ReadOptionFlags(o);
    assert |flags| == 0 || flags[0] == "--server-side" || flags[0] == "-v";
    ReadFileFlagsBack(configPaths, flags);
    var rest := FileFlags(configPaths) + flags;
    AfterBase(base, rest);
    base + rest
  }

  /** The arguments after a four-word command prefix. */
  lemma AfterBase(base: seq<string>, rest: seq<string>)
    requires |base| == 4
    ensures |base + rest| >= 4 && (base + rest)[..4] == base && (base + rest)[4..] == rest
  {
  }

  /** `KUBECTL_EXTERNAL_DIFF=<command>`, then the client's extra variables in order. The
      command is `kadiff` in structured mode, and otherwise the script staged for raw diffs
      (`scriptPath`). */
  function DiffEnv(c: Client, structured: bool, scriptPath: string): (env: seq<string>)
    ensures |env| == |c.extraEnv| + 1 && env[1..] == c.extraEnv
    ensures structured ==> env[0] == "KUBECTL_EXTERNAL_DIFF=kadiff"
    ensures !structured ==> env[0] == "KUBECTL_EXTERNAL_DIFF=" + scriptPath
  {
    var cmd := if structured then "kadiff" else scriptPath;
    ["KUBECTL_EXTERNAL_DIFF=" + cmd] + c.extraEnv
  }

  /** `Diff`: one kubectl run with the diff arguments and environment; its output and error
      are returned as they are. */
  function Diff(c: Client, configPaths: seq<string>, structured: bool, scriptPath: string,
                run: Invocation -> CmdResult): (r: CmdResult)
    ensures r == run(Invocation(DiffArgs(c, configPaths), DiffEnv(c, structured, scriptPath)))
  {
    run(Invocation(DiffArgs(c, configPaths), DiffEnv(c, structured, scriptPath)))
  }

  // ---------------------------------------------------------------- delete

  /** The kinds the API resources cover. */
  function Kinds(resources: seq<ApiResource>): set<string> {
    set i | 0 <= i < |resources| :: resources[i].kind
  }

  /** No later resource has the same kind as the one at `i`. */
  predicate LastOfKind(resources: seq<ApiResource>, i: nat)
    requires i < |resources|
  {
    forall j :: i < j < |resources| ==> resources[j].kind != resources[i].kind
  }

  /** Each resource as the pair its loop iteration assigns. */
  function KindNamePairs(resources: seq<ApiResource>): (pairs: seq<(string, string)>)
    ensures |pairs| == |resources|
    ensures forall i :: 0 <= i < |resources| ==> pairs[i] == (resources[i].kind, resources[i].name)
    ensures Keys(pairs) == Kinds(resources)
  {
    var pairs := seq(|resources|, i requires 0 <= i < |resources| => (resources[i].kind, resources[i].name));
    assert forall k :: k in Keys(pairs) ==> k in Kinds(resources);
    forall k | k in Kinds(resources) ensures k in Keys(pairs) {
      var i :| 0 <= i < |resources| && resources[i].kind == k;
      assert pairs[i].0 == k;
    }
    pairs
  }

  /** The kind-to-resource-name map of `Delete`. */
  function ResourceNames(resources: seq<ApiResource>): (names: map<string, string>)
    ensures names.Keys == Kinds(resources)
  {
    FromPairs(KindNamePairs(resources))
  }

  /** When several resources share a kind, the last one's name wins. */
  lemma ResourceNamesLastWins(resources: seq<ApiResource>, i: nat)
    requires i < |resources| && LastOfKind(resources, i)
    ensures resources[i].kind in ResourceNames(resources)
    ensures ResourceNames(resources)[resources[i].kind] == resources[i].name
  {
    var pairs := KindNamePairs(resources);
    assert LastOfKey(pairs, i);
    FromPairsLastWins(pairs, i);
  }

  /** `kubectl --kubeconfig <path> --ignore-not-found=true --wait=false delete <resource>
      <name>`, with `-n <namespace>` only for a non-empty namespace. */
  function DeleteArgs(c: Client, resource: string, id: IdComponents): (args: seq<string>)
    ensures |args| == (if id.namespace == "" then 7 else 9)
    ensures args[..7] == ["--kubeconfig", c.kubeConfigPath, "--ignore-not-found=true", "--wait=false",
                          "delete", resource, id.name]
    ensures |args| == 9 ==> args[7..] == ["-n", id.namespace]
  {
    var base := ["--kubeconfig", c.kubeConfigPath, "--ignore-not-found=true", "--wait=false",
                 "delete", resource, id.name];
    if id.namespace != "" then base + ["-n", id.namespace] else base
  }

  /** The identifiers decoded in order; one that does not decode has all pieces empty. */
  function DecodeAll(ids: seq<string>): (decoded: seq<IdComponents>)
    ensures |decoded| == |ids|
    ensures forall i :: 0 <= i < |ids| ==> decoded[i] == ManifestIdToComponents(ids[i])
  {
    seq(|ids|, i requires 0 <= i < |ids| => ManifestIdToComponents(ids[i]))
  }

  /** The decoded identifiers whose kind has a resource name, in order. */
  function Deletable(ids: seq<IdComponents>, names: map<string, string>): (kept: seq<IdComponents>)
    ensures |kept| <= |ids|
    ensures forall i :: 0 <= i < |kept| ==> kept[i].kind in names && kept[i] in ids
  {
    if |ids| == 0 then []
    else if ids[0].kind in names then [ids[0]] + Deletable(ids[1..], names)
    else Deletable(ids[1..], names)
  }

  /** The runs the batch issues, in order: one per decoded identifier whose kind has a
      resource name; the others are skipped. The runs add nothing to the environment. */
  function DeletePlan(c: Client, ids: seq<IdComponents>, names: map<string, string>): (plan: seq<Invocation>)
    ensures |plan| <= |ids|
    ensures forall i :: 0 <= i < |plan| ==> plan[i].env == [] && |plan[i].args| >= 7 && plan[i].args[4] == "delete"
  {
    if |ids| == 0 then []
    else
      var rest := DeletePlan(c, ids[1..], names);
      if ids[0].kind in names then [Invocation(DeleteArgs(c, names[ids[0].kind], ids[0]), [])] + rest else rest
  }

  /** One run per deletable identifier, with that identifier's arguments. */
  lemma {:induction false} DeletePlanRuns(c: Client, ids: seq<IdComponents>, names: map<string, string>)
    ensures var plan := DeletePlan(c, ids, names); var del := Deletable(ids, names);
      && |plan| == |del|
      && forall i :: 0 <= i < |plan| ==> plan[i] == Invocation(DeleteArgs(c, names[del[i].kind], del[i]), [])
    decreases |ids|
  {
    if |ids| > 0 {
      DeletePlanRuns(c, ids[1..], names);
    }
  }

  /** An identifier whose kind has no resource name issues no run. */
  lemma UnknownKindSkipped(c: Client, id: IdComponents, rest: seq<IdComponents>, names: map<string, string>)
    requires id.kind !in names
    ensures DeletePlan(c, [id] + rest, names) == DeletePlan(c, rest, names)
  {
    assert ([id] + rest)[1..] == rest;
  }

  /** What `Delete` returns: an output and an error, together with the runs it issued. */
  datatype DeleteOutcome = DeleteOutcome(output: string, err: Option<string>, issued: seq<Invocation>)

  /** The position of the first run that fails, or the plan's length when none does. */
  function FirstFailure(plan: seq<Invocation>, run: Invocation -> CmdResult): (k: nat)
    ensures k <= |plan|
    ensures forall i :: 0 <= i < k ==> run(plan[i]).err.None?
    ensures k < |plan| ==> run(plan[k]).err.Some?
  {
    if |plan| == 0 then 0
    else if run(plan[0]).err.Some? then 0
    else 1 + FirstFailure(plan[1..], run)
  }

  /** The trimmed outputs of the runs, in order; `trim` is `bytes.TrimSpace`. */
  function Outputs(plan: seq<Invocation>, run: Invocation -> CmdResult, trim: string -> string): (outs: seq<string>)
    ensures |outs| == |plan|
  {
    if |plan| == 0 then [] else [trim(run(plan[0]).output)] + Outputs(plan[1..], run, trim)
  }

  /** Output `i` belongs to run `i`. */
  lemma {:induction false} OutputsAt(plan: seq<Invocation>, run: Invocation -> CmdResult, trim: string -> string, i: nat)
    requires i < |plan|
    ensures Outputs(plan, run, trim)[i] == trim(run(plan[i]).output)
    decreases |plan|
  {
    if i > 0 {
      OutputsAt(plan[1..], run, trim, i - 1);
    }
  }

  /** The batch loop: runs in order until one fails; `done` holds the trimmed outputs of
      the runs that succeeded so far, and `trim` is `bytes.TrimSpace`. */
  function RunBatch(plan: seq<Invocation>, run: Invocation -> CmdResult, trim: string -> string, done: seq<string>): DeleteOutcome
    decreases |plan|
  {
    if |plan| == 0 then DeleteOutcome(Join(done, '\n'), None, [])
    else
      var res := run(plan[0]);
      if res.err.Some? then DeleteOutcome(res.output, res.err, [plan[0]])
      else
        var r := RunBatch(plan[1..], run, trim, done + [trim(res.output)]);
        DeleteOutcome(r.output, r.err, [plan[0]] + r.issued)
  }

  /** The batch stops at the first failing run and passes on that run's output and error. */
  lemma {:induction false} RunBatchFails(plan: seq<Invocation>, run: Invocation -> CmdResult, trim: string -> string, done: seq<string>)
    requires FirstFailure(plan, run) < |plan|
    ensures var k := FirstFailure(plan, run);
      RunBatch(plan, run, trim, done) == DeleteOutcome(run(plan[k]).output, run(plan[k]).err, plan[..k + 1])
    decreases |plan|
  {
    if run(plan[0]).err.None? {
      var k' := FirstFailure(plan[1..], run);
      RunBatchFails(plan[1..], run, trim, done + [trim(run(plan[0]).output)]);
      assert plan[1..][k'] == plan[k' + 1];
      assert [plan[0]] + plan[1..][..k' + 1] == plan[..k' + 2];
    }
  }

  /** When every run succeeds the batch returns their trimmed outputs joined by newlines. */
  lemma {:induction false} RunBatchSucceeds(plan: seq<Invocation>, run: Invocation -> CmdResult, trim: string -> string, done: seq<string>)
    requires FirstFailure(plan, run) == |plan|
    ensures RunBatch(plan, run, trim, done) == DeleteOutcome(Join(done + Outputs(plan, run, trim), '\n'), None, plan)
    decreases |plan|
  {
    if |plan| == 0 {
      assert done + Outputs(plan, run, trim) == done;
    } else {
      assert run(plan[0]).err.None?;
      var x := trim(run(plan[0]).output);
      var tail := Outputs(plan[1..], run, trim);
      RunBatchSucceeds(plan[1..], run, trim, done + [x]);
      assert Outputs(plan, run, trim) == [x] + tail;
      assert done + [x] + tail == done + ([x] + tail);
      HeadTail(plan);
    }
  }

  lemma HeadTail<T>(s: seq<T>)
    requires |s| > 0
    ensures [s[0]] + s[1..] == s
  {
  }

  /** `Delete`: the identifiers are decoded; the API resources (`resources`, the outcome of
      `getApiResources`) give the resource name of each kind; the runs of the plan are
      issued until one fails. */
  function Delete(c: Client, ids: seq<string>, resources: Result<seq<ApiResource>, string>,
                  run: Invocation -> CmdResult): (r: DeleteOutcome)
    ensures resources.Err? ==> r == DeleteOutcome("", Some(resources.error), [])
    ensures resources.Ok? ==>
      var plan := DeletePlan(c, DecodeAll(ids), ResourceNames(resources.value));
      var k := FirstFailure(plan, run);
      r == if k < |plan| then DeleteOutcome(run(plan[k]).output, run(plan[k]).err, plan[..k + 1])
           else DeleteOutcome(Join(Outputs(plan, run, TrimSpace), '\n'), None, plan)
  {
    match resources
    case Err(e) => DeleteOutcome("", Some(e), [])
    case Ok(rs) =>
      RunPlan(DeletePlan(c, DecodeAll(ids), ResourceNames(rs)), run)
  }

  /** The runs of a deletion plan, issued in order until one fails: the failing run's output
      and error with the runs issued so far, or all trimmed outputs joined by newlines. */
  function RunPlan(plan: seq<Invocation>, run: Invocation -> CmdResult): (r: DeleteOutcome)
    ensures var k := FirstFailure(plan, run);
      r == if k < |plan| then DeleteOutcome(run(plan[k]).output, run(plan[k]).err, plan[..k + 1])
           else DeleteOutcome(Join(Outputs(plan, run, TrimSpace), '\n'), None, plan)
  {
    if FirstFailure(plan, run) < |plan| then
      RunBatchFails(plan, run, TrimSpace, []);
      RunBatch(plan, run, TrimSpace, [])
    else
      RunBatchSucceeds(plan, run, TrimSpace, []);
      assert [] + Outputs(plan, run, TrimSpace) == Outputs(plan, run, TrimSpace);
      RunBatch(plan, run, TrimSpace, [])
  }
}
