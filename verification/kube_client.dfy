/** `KubeClient` (pkg/cluster/kube_client.go): the cluster client the provider uses,
    backed by an `OrderedClient`. The JSON decoding of kubectl's output and the pairing of
    old and new objects are the oracles `toObjects`, `toResults` and `decode`. */
module KubeClusterClient {
  import opened Wrappers
  import opened GoStrings
  import opened Manifests
  import opened OrderedClient

  /** The parts of the client configuration the client is built from. */
  datatype ClientConfig = ClientConfig(
    kubeConfigPath: string,
    keepConfigs: bool,
    extraEnv: seq<string>,
    debug: bool,
    serverSideApply: bool)

  datatype KubeClient = KubeClient(kubeConfigPath: string, ordered: Client)

  /** `NewKubeClient`: a kubeconfig path is required. */
  function NewKubeClient(config: ClientConfig): (r: Result<KubeClient, string>)
    ensures r.Err? <==> config.kubeConfigPath == ""
    ensures r.Err? ==> r.error == "Must provide a kubeconfig"
    ensures r.Ok? ==>
      && r.value.kubeConfigPath == config.kubeConfigPath
      && r.value.ordered.kubeConfigPath == config.kubeConfigPath
      && r.value.ordered.keepConfigs == config.keepConfigs
      && r.value.ordered.extraEnv == config.extraEnv
      && r.value.ordered.debug == config.debug
      && r.value.ordered.serverSide == config.serverSideApply
  {
    if config.kubeConfigPath == "" then Err("Must provide a kubeconfig")
    else
      var path := config.kubeConfigPath;
      Ok(KubeClient(path, Client(path, config.keepConfigs, config.extraEnv, config.debug, config.serverSideApply)))
  }

  /** `execApply`: an ordered apply whose output is always captured. */
  function ExecApply(cc: KubeClient, listing: Listing, tempDir: string, format: string, dryRun: bool,
                     run: Invocation -> CmdResult): (r: ApplyOutcome)
    ensures r.Applied? ==>
      && r.output == run(r.invocation).output
      && IsApplyArgs(r.invocation.args, cc.ordered.kubeConfigPath, tempDir,
                     Options(cc.ordered.serverSide, cc.ordered.debug, format, dryRun))
      && r.invocation.env == cc.ordered.extraEnv
    ensures r.Applied? <==> listing.Listing? && listing.err.None?
  {
    OrderedClient.Apply(cc.ordered, listing, tempDir, true, format, dryRun, run)
  }

  /** `Apply`: a plain apply, with no output format and no dry run. */
  function Apply(cc: KubeClient, listing: Listing, tempDir: string, run: Invocation -> CmdResult): (r: ApplyOutcome)
    ensures r.Applied? ==>
      && r.output == run(r.invocation).output
      && IsApplyArgs(r.invocation.args, cc.ordered.kubeConfigPath, tempDir,
                     Options(cc.ordered.serverSide, cc.ordered.debug, "", false))
      && "--dry-run" !in r.invocation.args[6..]
  {
    var r := ExecApply(cc, listing, tempDir, "", false, run);
    if r.Applied? then
      assert r.invocation.args[6..] == OptionFlags(Options(cc.ordered.serverSide, cc.ordered.debug, "", false));
      r
    else r
  }

  /** The outcome of a sequenced call: its result and the kubectl runs it issued, in
      order; `Crashed` when reading the manifests panicked. */
  datatype Attempt<R> = Attempt(result: Result<R, string>, runs: seq<Invocation>) | Crashed

  /** `ApplyStructured`: a JSON dry run whose objects are the old state, then, only if it
      succeeded and decoded, the real JSON apply whose objects are the new state. Both
      applies read the same manifests (`listing`); each stages them in its own directory. */
  function ApplyStructured<O, R>(cc: KubeClient, listing: Listing, dryDir: string, realDir: string,
                                 run: Invocation -> CmdResult, toObjects: string -> Result<O, string>,
                                 toResults: (O, O) -> Result<R, string>): (r: Attempt<R>)
    ensures r.Crashed? <==> listing.Panicked?
    ensures r.Attempt? ==> |r.runs| <= 2
    ensures r.Attempt? && |r.runs| >= 1 ==>
      && IsApplyArgs(r.runs[0].args, cc.ordered.kubeConfigPath, dryDir,
                     Options(cc.ordered.serverSide, cc.ordered.debug, "json", true))
      && r.runs[0].env == cc.ordered.extraEnv
    ensures r.Attempt? && |r.runs| == 2 ==>
      && IsApplyArgs(r.runs[1].args, cc.ordered.kubeConfigPath, realDir,
                     Options(cc.ordered.serverSide, cc.ordered.debug, "json", false))
      && r.runs[1].env == cc.ordered.extraEnv
    ensures r.Attempt? && |r.runs| >= 1 && run(r.runs[0]).err.Some? ==>
      && |r.runs| == 1
      && r.result == Err("Error running apply dry-run: " + run(r.runs[0]).err.value + "; output: " + run(r.runs[0]).output)
    ensures r.Attempt? && |r.runs| == 2 && run(r.runs[1]).err.Some? ==>
      r.result == Err("Error running apply: " + run(r.runs[1]).err.value + "; output: " + run(r.runs[1]).output)
    ensures r.Attempt? && r.result.Ok? ==> |r.runs| == 2
    ensures listing.Listing? && listing.err.Some? ==>
      r == Attempt(Err("Error running apply dry-run: " + listing.err.value + "; output: "), [])
    ensures listing.Listing? && listing.err.None? ==> r.Attempt? && |r.runs| >= 1
    ensures listing.Listing? && listing.err.None? && run(r.runs[0]).err.None? ==>
      (|r.runs| == 2 <==> toObjects(run(r.runs[0]).output).Ok?)
    ensures listing.Listing? && listing.err.None? && run(r.runs[0]).err.None? && |r.runs| == 1 ==>
      r.result == Err(toObjects(run(r.runs[0]).output).error)
    ensures listing.Listing? && listing.err.None? && |r.runs| == 2 && run(r.runs[1]).err.None? ==>
      var before := toObjects(run(r.runs[0]).output);
      var after := toObjects(run(r.runs[1]).output);
      && before.Ok?
      && r.result == (if after.Err? then Err(after.error) else toResults(before.value, after.value))
  {
    match listing
    case Panicked => Crashed
    case Listing(_, err) =>
      if err.Some? then Attempt(Err("Error running apply dry-run: " + err.value + "; output: "), [])
      else
        var dry := ExecApply(cc, listing, dryDir, "json", true, run);
        if dry.err.Some? then
          Attempt(Err("Error running apply dry-run: " + dry.err.value + "; output: " + dry.output), [dry.invocation])
        else
          var before := toObjects(dry.output);
          if before.Err? then Attempt(Err(before.error), [dry.invocation])
          else
            var applied := ExecApply(cc, listing, realDir, "json", false, run);
            var runs := [dry.invocation, applied.invocation];
            if applied.err.Some? then
              Attempt(Err("Error running apply: " + applied.err.value + "; output: " + applied.output), runs)
            else
              var after := toObjects(applied.output);
              if after.Err? then Attempt(Err(after.error), runs)
              else Attempt(toResults(before.value, after.value), runs)
  }

  /** Everything before the first `{` of the structured diff output is dropped, since
      kubectl may print warnings ahead of the JSON. */
  function StripJsonPrefix(raw: string): (r: string)
    ensures |r| <= |raw| && r == raw[|raw| - |r|..]
    ensures '{' !in raw[..|raw| - |r|]
    ensures '{' in raw ==> r[0] == '{'
    ensures '{' !in raw ==> r == raw
  {
    var j := IndexOf(raw, '{');
    if j > 0 then raw[j..] else raw
  }

  /** Stripping twice strips nothing more. */
  lemma StripJsonPrefixIdempotent(raw: string)
    ensures StripJsonPrefix(StripJsonPrefix(raw)) == StripJsonPrefix(raw)
  {
    var r := StripJsonPrefix(raw);
    if '{' in raw {
      assert r[0] == '{';
    }
  }

  /** `Diff`: the raw diff, whose failure is reported with the output. */
  function Diff(cc: KubeClient, paths: seq<string>, scriptPath: string, run: Invocation -> CmdResult): (r: Result<string, string>)
    ensures var res := run(Invocation(DiffArgs(cc.ordered, paths), DiffEnv(cc.ordered, false, scriptPath)));
      && (r.Ok? <==> res.err.None?)
      && (r.Ok? ==> r.value == res.output)
      && (r.Err? ==> r.error == "Error running diff: " + res.err.value + " (output: " + res.output + ")")
  {
    var res := OrderedClient.Diff(cc.ordered, paths, false, scriptPath, run);
    if res.err.Some? then Err("Error running diff: " + res.err.value + " (output: " + res.output + ")")
    else Ok(res.output)
  }

  /** `DiffStructured`: a diff through `kadiff` whose output, once stripped of anything
      before its JSON, is decoded. */
  function DiffStructured<R>(cc: KubeClient, paths: seq<string>, run: Invocation -> CmdResult,
                             decode: string -> Result<R, string>): (r: Result<R, string>)
    ensures var inv := Invocation(DiffArgs(cc.ordered, paths), DiffEnv(cc.ordered, true, ""));
      && inv.env[0] == "KUBECTL_EXTERNAL_DIFF=kadiff"
      && (run(inv).err.Some? ==>
            r == Err("Error running diff: " + run(inv).err.value + " (output: " + run(inv).output + ")"))
      && (run(inv).err.None? ==> r == decode(StripJsonPrefix(run(inv).output)))
  {
    var res := OrderedClient.Diff(cc.ordered, paths, true, "", run);
    if res.err.Some? then Err("Error running diff: " + res.err.value + " (output: " + res.output + ")")
    else decode(StripJsonPrefix(res.output))
  }
}
