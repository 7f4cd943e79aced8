/** Manifest identity: the per-document filter of `GetManifests`, the identifier
    `apiVersion.kind.namespace.name` it builds, and the decoder that takes an identifier
    apart again (pkg/cluster/kube/manifests.go). */
module Manifests {
  import opened Wrappers
  import opened GoStrings
  import DocSplit

  /** The order in which resource kinds are applied; kinds not listed come last. */
  const KindOrder: seq<string> := [
    "Namespace", "NetworkPolicy", "ResourceQuota", "LimitRange", "PodSecurityPolicy",
    "PodDisruptionBudget", "Secret", "ConfigMap", "ConfigMapList", "StorageClass",
    "PersistentVolume", "PersistentVolumeClaim", "ServiceAccount", "CustomResourceDefinition",
    "ClusterRole", "ClusterRoleList", "ClusterRoleBinding", "ClusterRoleBindingList", "Role",
    "RoleList", "RoleBinding", "RoleBindingList", "Service", "DaemonSet", "Pod",
    "ReplicationController", "ReplicaSet", "Deployment", "HorizontalPodAutoscaler",
    "StatefulSet", "Job", "CronJob", "Ingress", "APIService"
  ]

  /** Kinds whose documents are admitted without a `metadata` block. */
  const KindsWithoutMetadata: seq<string> := ["ConfigMapList", "RoleBindingList", "RoleList"]

  datatype Metadata = Metadata(name: string, namespace: string, annotations: map<string, string>)

  /** The few header fields read from each document; `metadata` is a pointer in Go. */
  datatype Header = Header(version: string, kind: string, metadata: Option<Metadata>)

  datatype Manifest = Manifest(path: string, head: Header, contents: string, hash: string, id: string)

  /** The linear search `contains(list, str)`. */
  function ListContains(list: seq<string>, str: string): (b: bool)
    ensures b <==> str in list
  {
    if |list| == 0 then false else list[0] == str || ListContains(list[1..], str)
  }

  /** A line that carries no content: white space only, or a `#` after leading white space. */
  predicate IgnorableLine(line: string)
    decreases |line|
  {
    |line| == 0 || line[0] == '#' || (IsSpace(line[0]) && IgnorableLine(line[1..]))
  }

  /** The test `isEmpty` applies to a line: trimmed of white space, it is empty or starts
      with `#`. */
  lemma {:induction false} IgnorableLineTrimmed(line: string)
    ensures IgnorableLine(line) <==> |TrimSpace(line)| == 0 || TrimSpace(line)[0] == '#'
    decreases |line|
  {
    if |line| > 0 {
      if IsSpace(line[0]) {
        TrimSpaceSkip(line);
        IgnorableLineTrimmed(line[1..]);
      } else {
        TrimSpaceHead(line);
      }
    }
  }

  /** The loop of `isEmpty`: false at the first line with content. */
  function AllIgnorable(lines: seq<string>): (b: bool)
    ensures b <==> forall i :: 0 <= i < |lines| ==> IgnorableLine(lines[i])
  {
    if |lines| == 0 then true
    else if !IgnorableLine(lines[0]) then false
    else
      var rest := AllIgnorable(lines[1..]);
      assert forall i :: 1 <= i < |lines| ==> lines[i] == lines[1..][i - 1];
      rest
  }

  /** `isEmpty`: a document is empty when every one of its lines is blank or a comment. */
  function IsEmptyDocument(contents: string): (b: bool)
    ensures b <==> forall line :: line in Split(contents, '\n') ==> IgnorableLine(line)
  {
    var lines := Split(contents, '\n');
    var b := AllIgnorable(lines);
    assert b <==> forall i :: 0 <= i < |lines| ==> IgnorableLine(lines[i]);
    b
  }

  /** The identifier `apiVersion.kind.namespace.name` of manifests.go:137-143. */
  function EncodeId(version: string, kind: string, namespace: string, name: string): string {
    version + "." + kind + "." + namespace + "." + name
  }

  /** What happens to one document of a file. */
  datatype SkipReason = Blank | Unparseable | MissingMetadata

  datatype DocOutcome =
    | Kept(manifest: Manifest)
    | Skipped(reason: SkipReason)
      /** An allowlisted kind with no metadata: the identifier dereferences a nil pointer. */
    | NilMetadata

  /** The body of the per-document loop of `GetManifests`. `parse` stands for the YAML
      header decoder (None when it fails) and `hash` for the hex md5 of the text. */
  function ProcessDocument(path: string, raw: string, parse: string -> Option<Header>,
                           hash: string -> string): (o: DocOutcome)
    ensures var doc := TrimSpace(raw);
      && (o == Skipped(Blank) <==> IsEmptyDocument(doc))
      && (o == Skipped(Unparseable) <==> !IsEmptyDocument(doc) && parse(doc).None?)
      && (o == Skipped(MissingMetadata) <==>
            && !IsEmptyDocument(doc) && parse(doc).Some? && parse(doc).value.metadata.None?
            && parse(doc).value.kind !in KindsWithoutMetadata)
      && (o.NilMetadata? <==>
            && !IsEmptyDocument(doc) && parse(doc).Some? && parse(doc).value.metadata.None?
            && parse(doc).value.kind in KindsWithoutMetadata)
    ensures o.Kept? ==>
      var doc := TrimSpace(raw);
      var h := o.manifest.head;
      && !IsEmptyDocument(doc) && parse(doc) == Some(h) && h.metadata.Some?
      && o.manifest.path == path && o.manifest.contents == doc && o.manifest.hash == hash(doc)
      && o.manifest.id == EncodeId(h.version, h.kind, h.metadata.value.namespace, h.metadata.value.name)
  {
    var doc := TrimSpace(raw);
    if IsEmptyDocument(doc) then Skipped(Blank)
    else
      match parse(doc)
      case None => Skipped(Unparseable)
      case Some(head) =>
        if head.metadata.None? && !ListContains(KindsWithoutMetadata, head.kind) then
          Skipped(MissingMetadata)
        else if head.metadata.None? then
          NilMetadata
        else
          var md := head.metadata.value;
          Kept(Manifest(path, head, doc, hash(doc), EncodeId(head.version, head.kind, md.namespace, md.name)))
  }

  /** The manifests of a file's documents, in document order, where `step` decides the fate
      of each document; None when a document hits the nil metadata dereference. */
  function Collect(docs: seq<string>, step: string -> DocOutcome): (r: Option<seq<Manifest>>)
    ensures r.Some? ==> |r.value| <= |docs|
    ensures r.None? <==> exists i :: 0 <= i < |docs| && step(docs[i]).NilMetadata?
  {
    if |docs| == 0 then Some([])
    else
      var o := step(docs[0]);
      var rest := Collect(docs[1..], step);
      assert forall i :: 1 <= i < |docs| ==> docs[i] == docs[1..][i - 1];
      assert rest.None? ==> exists i :: 1 <= i < |docs| && step(docs[i]).NilMetadata?
        by { if rest.None? { var i :| 0 <= i < |docs[1..]| && step(docs[1..][i]).NilMetadata?; assert docs[i + 1] == docs[1..][i]; } }
      if o.NilMetadata? then None
      else
        match rest
        case None => None
        case Some(ms) => Some(if o.Kept? then [o.manifest] + ms else ms)
  }

  /** The manifests `GetManifests` keeps from the documents of the file at `path`. */
  function DocumentManifests(path: string, docs: seq<string>, parse: string -> Option<Header>,
                             hash: string -> string): Option<seq<Manifest>>
  {
    Collect(docs, d => ProcessDocument(path, d, parse, hash))
  }

  /** The documents are processed independently: the manifests of a concatenation are the
      concatenation of the manifests. */
  lemma {:induction false} CollectAppend(a: seq<string>, b: seq<string>, step: string -> DocOutcome)
    ensures var ra, rb := Collect(a, step), Collect(b, step);
      Collect(a + b, step) == if ra.Some? && rb.Some? then Some(ra.value + rb.value) else None
    decreases |a|
  {
    if |a| > 0 {
      assert (a + b)[1..] == a[1..] + b;
      assert (a + b)[0] == a[0];
      CollectAppend(a[1..], b, step);
      var o := step(a[0]);
      var ra', rb := Collect(a[1..], step), Collect(b, step);
      if !o.NilMetadata? && ra'.Some? && rb.Some? && o.Kept? {
        assert [o.manifest] + (ra'.value + rb.value) == ([o.manifest] + ra'.value) + rb.value;
      }
    } else {
      assert a + b == b;
      assert Collect(a, step) == Some([]);
      if Collect(b, step).Some? {
        assert [] + Collect(b, step).value == Collect(b, step).value;
      }
    }
  }

  /** A skipped document (blank, unparseable, or without metadata and not allowlisted) is
      dropped without affecting the documents around it. */
  lemma SkippedDropped(before: seq<string>, doc: string, after: seq<string>, step: string -> DocOutcome)
    requires step(doc).Skipped?
    ensures Collect(before + [doc] + after, step) == Collect(before + after, step)
  {
    assert [doc][1..] == [];
    assert Collect([doc], step) == Some([]);
    CollectAppend(before + [doc], after, step);
    CollectAppend(before, [doc], step);
    CollectAppend(before, after, step);
    var rb := Collect(before, step);
    if rb.Some? {
      assert rb.value + [] == rb.value;
    }
  }

  /** One step of `filepath.Walk`: the error handed to the callback, a directory, or a file
      together with the outcome of reading it. */
  datatype EntryInfo = WalkError(message: string) | Directory | File(read: Result<string, string>)

  datatype Entry = Entry(path: string, info: EntryInfo)

  /** What `GetManifests` returns: the manifests gathered so far and the error that stopped
      the walk, if any; or the nil-pointer panic. */
  datatype Listing = Listing(manifests: seq<Manifest>, err: Option<string>) | Panicked

  /** The manifests of one walked entry: files whose name does not end in `.yaml` are
      ignored; a file's text is trimmed and cut into documents by the separator. */
  function EntryManifests(e: Entry, parse: string -> Option<Header>, hash: string -> string)
    : (r: Result<Option<seq<Manifest>>, string>)
    ensures r.Err? <==> e.info.WalkError? || (e.info.File? && HasSuffix(e.path, ".yaml") && e.info.read.Err?)
    ensures e.info.WalkError? ==> r.error == e.info.message
    ensures e.info.File? && HasSuffix(e.path, ".yaml") && e.info.read.Err? ==> r.error == e.info.read.error
    ensures e.info.Directory? || (e.info.File? && !HasSuffix(e.path, ".yaml")) ==> r == Ok(Some([]))
  {
    match e.info
    case WalkError(msg) => Err(msg)
    case Directory => Ok(Some([]))
    case File(read) =>
      if !HasSuffix(e.path, ".yaml") then Ok(Some([]))
      else
        match read
        case Err(msg) => Err(msg)
        case Ok(text) =>
          Ok(DocumentManifests(e.path, DocSplit.SplitDocuments(TrimSpace(text)), parse, hash))
  }

  /** `GetManifests` over the entries the walks visit, in visiting order (the walks of the
      argument paths one after the other). */
  function GetManifests(entries: seq<Entry>, parse: string -> Option<Header>, hash: string -> string)
    : (l: Listing)
    ensures l.Listing? && l.err.None? ==> forall i :: 0 <= i < |entries| ==>
      EntryManifests(entries[i], parse, hash).Ok? && EntryManifests(entries[i], parse, hash).value.Some?
  {
    var visit := EntryVisitor(parse, hash);
    assert forall e :: visit(e) == EntryManifests(e, parse, hash);
    Walk(entries, [], visit)
  }

  /** The walk callback of `GetManifests`. */
  function EntryVisitor(parse: string -> Option<Header>, hash: string -> string)
    : Entry -> Result<Option<seq<Manifest>>, string>
  {
    e => EntryManifests(e, parse, hash)
  }

  /** A walk in which every entry is read reports no error and returns every manifest of
      every entry, in visiting order. */
  lemma GetManifestsAll(entries: seq<Entry>, parse: string -> Option<Header>, hash: string -> string)
    requires forall i :: 0 <= i < |entries| ==>
      EntryManifests(entries[i], parse, hash).Ok? && EntryManifests(entries[i], parse, hash).value.Some?
    ensures GetManifests(entries, parse, hash) == Listing(Gathered(entries, EntryVisitor(parse, hash)), None)
  {
    WalkGathersAll(entries, [], EntryVisitor(parse, hash));
  }

  /** The walk loop: `visit` gives each entry's manifests, an error, or None for a panic.
      The first error ends the walk and is returned with what was gathered before it. */
  function Walk(entries: seq<Entry>, acc: seq<Manifest>,
                visit: Entry -> Result<Option<seq<Manifest>>, string>): (l: Listing)
    ensures l.Listing? && l.err.None? ==>
      forall i :: 0 <= i < |entries| ==> visit(entries[i]).Ok? && visit(entries[i]).value.Some?
    ensures l.Listing? ==> |acc| <= |l.manifests| && l.manifests[..|acc|] == acc
    ensures l.Listing? && l.err.None? ==> l.manifests == acc + Gathered(entries, visit)
  {
    if |entries| == 0 then Listing(acc, None)
    else
      match visit(entries[0])
      case Err(msg) => Listing(acc, Some(msg))
      case Ok(None) => Panicked
      case Ok(Some(ms)) =>
        var l := Walk(entries[1..], acc + ms, visit);
        WalkStep(entries, acc, ms, l, visit);
        l
  }

  /** One visited entry: what the rest of the walk promises about `acc + ms` is what the
      whole walk promises about `acc`. */
  lemma WalkStep(entries: seq<Entry>, acc: seq<Manifest>, ms: seq<Manifest>, l: Listing,
                 visit: Entry -> Result<Option<seq<Manifest>>, string>)
    requires |entries| > 0 && visit(entries[0]) == Ok(Some(ms))
    requires l.Listing? && l.err.None? ==>
      forall i :: 0 <= i < |entries[1..]| ==> visit(entries[1..][i]).Ok? && visit(entries[1..][i]).value.Some?
    requires l.Listing? && l.err.None? ==> l.manifests == acc + ms + Gathered(entries[1..], visit)
    requires l.Listing? ==> |acc + ms| <= |l.manifests| && l.manifests[..|acc + ms|] == acc + ms
    ensures l.Listing? && l.err.None? ==>
      forall i :: 0 <= i < |entries| ==> visit(entries[i]).Ok? && visit(entries[i]).value.Some?
    ensures l.Listing? ==> |acc| <= |l.manifests| && l.manifests[..|acc|] == acc
    ensures l.Listing? && l.err.None? ==> l.manifests == acc + Gathered(entries, visit)
  {
    assert forall i :: 1 <= i < |entries| ==> entries[i] == entries[1..][i - 1];
    if l.Listing? {
      assert l.manifests[..|acc|] == (acc + ms)[..|acc|];
      if l.err.None? {
        assert acc + ms + Gathered(entries[1..], visit) == acc + (ms + Gathered(entries[1..], visit));
      }
    }
  }

  /** Every manifest the entries yield, when all of them are read without error or panic. */
  function Gathered(entries: seq<Entry>, visit: Entry -> Result<Option<seq<Manifest>>, string>): seq<Manifest>
    requires forall i :: 0 <= i < |entries| ==> visit(entries[i]).Ok? && visit(entries[i]).value.Some?
  {
    if |entries| == 0 then []
    else visit(entries[0]).value.value + Gathered(entries[1..], visit)
  }

  /** The first failing entry ends the walk: its error is returned together with every
      manifest of the entries before it, and the entries after it are never visited. */
  lemma {:induction false} WalkStopsAtError(entries: seq<Entry>, k: nat, acc: seq<Manifest>,
                                            visit: Entry -> Result<Option<seq<Manifest>>, string>)
    requires k < |entries| && visit(entries[k]).Err?
    requires forall i :: 0 <= i < k ==> visit(entries[i]).Ok? && visit(entries[i]).value.Some?
    ensures Walk(entries, acc, visit)
      == Listing(acc + Gathered(entries[..k], visit), Some(visit(entries[k]).error))
    decreases k
  {
    if k > 0 {
      var ms := visit(entries[0]).value.value;
      assert forall i :: 0 <= i < k - 1 ==> entries[1..][i] == entries[i + 1];
      WalkStopsAtError(entries[1..], k - 1, acc + ms, visit);
      assert entries[1..][..k - 1] == entries[..k][1..];
      assert acc + ms + Gathered(entries[1..][..k - 1], visit) == acc + (ms + Gathered(entries[..k][1..], visit));
    } else {
      assert entries[..0] == [];
    }
  }

  /** A walk whose every entry is read succeeds, with every manifest gathered. */
  lemma {:induction false} WalkGathersAll(entries: seq<Entry>, acc: seq<Manifest>,
                                          visit: Entry -> Result<Option<seq<Manifest>>, string>)
    requires forall i :: 0 <= i < |entries| ==> visit(entries[i]).Ok? && visit(entries[i]).value.Some?
    ensures Walk(entries, acc, visit) == Listing(acc + Gathered(entries, visit), None)
    decreases |entries|
  {
    if |entries| == 0 {
      assert acc + [] == acc;
    } else {
      var ms := visit(entries[0]).value.value;
      assert forall i :: 0 <= i < |entries| - 1 ==> entries[1..][i] == entries[i + 1];
      WalkGathersAll(entries[1..], acc + ms, visit);
      assert acc + ms + Gathered(entries[1..], visit) == acc + (ms + Gathered(entries[1..], visit));
    }
  }

  /** A panic while reading an entry ends everything: the walk panics too. */
  lemma {:induction false} WalkPanics(entries: seq<Entry>, k: nat, acc: seq<Manifest>,
                                      visit: Entry -> Result<Option<seq<Manifest>>, string>)
    requires k < |entries| && visit(entries[k]) == Ok(None)
    requires forall i :: 0 <= i < k ==> visit(entries[i]).Ok? && visit(entries[i]).value.Some?
    ensures Walk(entries, acc, visit) == Panicked
    decreases k
  {
    if k > 0 {
      var ms := visit(entries[0]).value.value;
      assert forall i :: 0 <= i < k - 1 ==> entries[1..][i] == entries[i + 1];
      WalkPanics(entries[1..], k - 1, acc + ms, visit);
    }
  }

  /** An entry that yields no manifest and no error leaves the walk as it was. */
  lemma WalkSkips(e: Entry, rest: seq<Entry>, acc: seq<Manifest>,
                  visit: Entry -> Result<Option<seq<Manifest>>, string>)
    requires visit(e) == Ok(Some([]))
    ensures Walk([e] + rest, acc, visit) == Walk(rest, acc, visit)
  {
    assert ([e] + rest)[1..] == rest;
    assert acc + [] == acc;
  }

  /** Files that are not `.yaml` and directories contribute nothing. */
  lemma IgnoredEntry(e: Entry, rest: seq<Entry>, parse: string -> Option<Header>, hash: string -> string)
    requires e.info.Directory? || (e.info.File? && !HasSuffix(e.path, ".yaml"))
    ensures GetManifests([e] + rest, parse, hash) == GetManifests(rest, parse, hash)
  {
    assert EntryManifests(e, parse, hash) == Ok(Some([]));
    WalkSkips(e, rest, [], EntryVisitor(parse, hash));
  }

  /** The pieces of an identifier (`idComponents`). */
  datatype IdComponents = IdComponents(api: string, kind: string, name: string, namespace: string)

  /** Where the API version ends: the first `.` after the first `/`, or, when there is no
      `/` past index 0, the first `.` at all. -1 when no such `.` exists and no `/` was found. */
  function ApiEnd(id: string): (e: int)
    ensures -1 <= e < |id|
  {
    var slash := IndexOf(id, '/');
    if slash > 0 then IndexOf(id[slash..], '.') + slash else IndexOf(id, '.')
  }

  /** `manifestIDToComponents` when the remainder splits into three fields; None where the
      source returns the zero `idComponents`. */
  function DecodeId(id: string): (r: Option<IdComponents>)
    ensures r.Some? ==> EncodeId(r.value.api, r.value.kind, r.value.namespace, r.value.name) == id
    ensures r.Some? ==> '.' !in r.value.kind && '.' !in r.value.namespace
  {
    var apiEnd := ApiEnd(id);
    var rest := id[apiEnd + 1..];
    var fields := SplitN(rest, '.', 3);
    if |fields| != 3 then None
    else
      DecodeFields(id, apiEnd, rest, fields);
      Some(IdComponents(id[..apiEnd], fields[0], fields[2], fields[1]))
  }

  /** `manifestIDToComponents`: the decoded pieces, or all-empty pieces. */
  function ManifestIdToComponents(id: string): (c: IdComponents)
    ensures c != IdComponents("", "", "", "") ==>
      EncodeId(c.api, c.kind, c.namespace, c.name) == id
  {
    DecodeId(id).GetOr(IdComponents("", "", "", ""))
  }

  lemma SplitNoSeparator(s: string, c: char, n: nat)
    requires n >= 1 && c !in s
    ensures SplitN(s, c, n) == [s]
  {
  }

  /** When no `.` remains after the API version's end, the remainder cannot split. */
  lemma ApiEndDot(id: string)
    requires '.' in id[ApiEnd(id) + 1..]
    ensures ApiEnd(id) >= 0 && id[ApiEnd(id)] == '.'
  {
    var slash := IndexOf(id, '/');
    if slash > 0 {
      var k := IndexOf(id[slash..], '.');
      if k < 0 {
        assert false;
      } else {
        assert id[slash..][k] == id[k + slash];
      }
    }
  }

  /** Why a three-way split puts a `.` at `apiEnd` and reassembles the identifier. */
  lemma DecodeFields(id: string, apiEnd: int, rest: string, fields: seq<string>)
    requires apiEnd == ApiEnd(id) && rest == id[apiEnd + 1..]
    requires fields == SplitN(rest, '.', 3) && |fields| == 3
    ensures 0 <= apiEnd && id == EncodeId(id[..apiEnd], fields[0], fields[1], fields[2])
    ensures '.' !in fields[0] && '.' !in fields[1]
  {
    DotAtApiEnd(id, rest, fields);
    JoinThree(fields, '.');
    Reassemble(id, apiEnd, fields[0], fields[1], fields[2]);
  }

  lemma DotAtApiEnd(id: string, rest: string, fields: seq<string>)
    requires rest == id[ApiEnd(id) + 1..]
    requires fields == SplitN(rest, '.', 3) && |fields| == 3
    ensures ApiEnd(id) >= 0 && id[ApiEnd(id)] == '.'
  {
    if '.' !in rest {
      assert false;
    }
    ApiEndDot(id);
  }

  lemma Reassemble(id: string, k: int, a: string, b: string, c: string)
    requires 0 <= k < |id| && id[k] == '.' && id[k + 1..] == a + "." + b + "." + c
    ensures id == EncodeId(id[..k], a, b, c)
  {
    var v := id[..k];
    assert id == v + "." + (a + "." + b + "." + c);
    assert v + "." + (a + "." + b + "." + c) == v + "." + a + "." + b + "." + c;
  }

  lemma JoinThree(parts: seq<string>, c: char)
    requires |parts| == 3
    ensures Join(parts, c) == parts[0] + [c] + parts[1] + [c] + parts[2]
  {
    assert parts[1..][1..] == [parts[2]];
    assert Join(parts[1..], c) == parts[1] + [c] + parts[2];
  }

  /** The API versions for which the decoder finds the end of the version again: no `.`
      after the first `/` (when that `/` is not the first character), and otherwise no `.`
      at all. */
  predicate ApiWellFormed(api: string) {
    var slash := IndexOf(api, '/');
    if slash > 0 then '.' !in api[slash..] else '.' !in api
  }

  /** Decoding undoes encoding when the version is well formed, no part after it holds a
      `/`, and the kind and the namespace hold no `.` (the name may). */
  lemma DecodeEncode(api: string, kind: string, namespace: string, name: string)
    requires ApiWellFormed(api)
    requires '/' !in kind && '/' !in namespace && '/' !in name
    requires '.' !in kind && '.' !in namespace
    ensures DecodeId(EncodeId(api, kind, namespace, name)) == Some(IdComponents(api, kind, name, namespace))
  {
    var id := EncodeId(api, kind, namespace, name);
    EncodedIdParts(api, kind, namespace, name);
    DecodeThreeFields(id, |api|, api, id[|api| + 1..], [kind, namespace, name]);
  }

  /** What the decoder sees of an encoded identifier: where the version ends, and a
      remainder that splits back into the three fields. */
  lemma EncodedIdParts(api: string, kind: string, namespace: string, name: string)
    requires ApiWellFormed(api)
    requires '/' !in kind && '/' !in namespace && '/' !in name
    requires '.' !in kind && '.' !in namespace
    ensures var id := EncodeId(api, kind, namespace, name);
      ApiEnd(id) == |api| && id[..|api|] == api && SplitN(id[|api| + 1..], '.', 3) == [kind, namespace, name]
  {
    var tail := kind + "." + namespace + "." + name;
    EncodeIdShape(api, kind, namespace, name, tail);
    SplitTail(kind, namespace, name, tail);
    EncodedParts(api, tail, EncodeId(api, kind, namespace, name));
  }

  /** The decoder's answer once the version and a three-way split of the rest are known. */
  lemma DecodeThreeFields(id: string, e: int, version: string, rest: string, fields: seq<string>)
    requires e == ApiEnd(id) && 0 <= e && id[..e] == version && rest == id[e + 1..]
    requires SplitN(rest, '.', 3) == fields && |fields| == 3
    ensures DecodeId(id) == Some(IdComponents(version, fields[0], fields[2], fields[1]))
  {
  }

  /** An encoded identifier is the version, a `.`, and a remainder free of `/`. */
  lemma EncodeIdShape(api: string, kind: string, namespace: string, name: string, tail: string)
    requires '/' !in kind && '/' !in namespace && '/' !in name
    requires tail == kind + "." + namespace + "." + name
    ensures EncodeId(api, kind, namespace, name) == api + ("." + tail)
    ensures '/' !in tail
  {
  }

  /** An encoded identifier seen from the decoder: the version, a `.`, and the rest. */
  lemma EncodedParts(api: string, tail: string, id: string)
    requires ApiWellFormed(api) && '/' !in tail && id == api + ("." + tail)
    ensures ApiEnd(id) == |api| && id[..|api|] == api && id[|api| + 1..] == tail
  {
    EncodedApiEnd(api, tail);
  }

  /** The decoder's answer once the end of the version and the split of the rest are known. */
  lemma DecodeWhenSplit(id: string, e: int, rest: string, fields: seq<string>)
    requires e == ApiEnd(id) && rest == id[e + 1..] && SplitN(rest, '.', 3) == fields
    ensures DecodeId(id) == if |fields| != 3 then None
      else Some(IdComponents(id[..e], fields[0], fields[2], fields[1]))
  {
  }

  /** In an encoded identifier the API version ends right where the version does. */
  lemma EncodedApiEnd(api: string, tail: string)
    requires ApiWellFormed(api) && '/' !in tail
    ensures ApiEnd(api + ("." + tail)) == |api|
  {
    var d := "." + tail;
    var id := api + d;
    assert '/' !in d;
    IndexOfConcat(api, d, '/');
    var slash := IndexOf(id, '/');
    if slash > 0 {
      assert IndexOf(api, '/') == slash;
      assert id[slash..] == api[slash..] + d;
      IndexOfConcat(api[slash..], d, '.');
    } else {
      IndexOfConcat(api, d, '.');
    }
  }

  /** The remainder of an encoded identifier splits back into kind, namespace and name. */
  lemma SplitTail(kind: string, namespace: string, name: string, tail: string)
    requires '.' !in kind && '.' !in namespace && tail == kind + "." + namespace + "." + name
    ensures SplitN(tail, '.', 3) == [kind, namespace, name]
  {
    var rest := namespace + "." + name;
    assert tail == kind + ['.'] + rest;
    SplitNCons(kind, rest, '.', 3);
    assert rest == namespace + ['.'] + name;
    SplitNCons(namespace, name, '.', 2);
    assert SplitN(name, '.', 1) == [name];
  }

  /** Where `strings.Index` finds a character in a concatenation. */
  lemma {:induction false} IndexOfConcat(a: string, b: string, c: char)
    ensures IndexOf(a + b, c) == if c in a then IndexOf(a, c) else if c in b then |a| + IndexOf(b, c) else -1
    decreases |a|
  {
    if |a| == 0 {
      assert a + b == b;
    } else {
      assert (a + b)[1..] == a[1..] + b;
      IndexOfConcat(a[1..], b, c);
      if a[0] != c {
        assert c in a <==> c in a[1..];
      }
    }
  }

  /** `SplitN` takes the text before the first separator as its first piece. */
  lemma SplitNCons(a: string, b: string, c: char, n: nat)
    requires n >= 2 && c !in a
    ensures SplitN(a + [c] + b, c, n) == [a] + SplitN(b, c, n - 1)
  {
    var s := a + [c] + b;
    FirstOccurrence(a, b, c);
    assert s[..|a|] == a;
    assert s[|a| + 1..] == b;
  }

  /** With only two fields after the version the decoder gives up. */
  lemma DecodeTooFewFields(api: string, kind: string, namespace: string)
    requires ApiWellFormed(api)
    requires '/' !in kind && '/' !in namespace
    requires '.' !in kind && '.' !in namespace
    ensures DecodeId(api + "." + kind + "." + namespace) == None
  {
    var id := api + "." + kind + "." + namespace;
    var tail := kind + "." + namespace;
    DotJoinAssoc(api, kind, namespace);
    EncodedParts(api, tail, id);
    SplitTwo(kind, namespace, tail);
    DecodeWhenSplit(id, |api|, tail, [kind, namespace]);
  }

  lemma DotJoinAssoc(a: string, b: string, c: string)
    ensures a + "." + b + "." + c == a + ("." + (b + "." + c))
  {
  }

  lemma SplitTwo(kind: string, namespace: string, tail: string)
    requires '.' !in kind && '.' !in namespace && tail == kind + "." + namespace
    ensures SplitN(tail, '.', 3) == [kind, namespace]
  {
    assert tail == kind + ['.'] + namespace;
    SplitNCons(kind, namespace, '.', 3);
    SplitNoSeparator(namespace, '.', 2);
  }

  /** Identifiers of manifests_test.go: a core-group identifier decodes into its parts;
      too few fields, or none at all, give the zero value rather than an error. */
  lemma DecodeExamples()
    ensures ManifestIdToComponents(EncodeId("v1", "Service", "argo-rollouts", "argo-rollouts-metrics"))
      == IdComponents("v1", "Service", "argo-rollouts-metrics", "argo-rollouts")
    ensures ManifestIdToComponents("v1" + "." + "Service" + "." + "argo-rollouts") == IdComponents("", "", "", "")
    ensures ManifestIdToComponents("bad id") == IdComponents("", "", "", "")
  {
    DecodeEncode("v1", "Service", "argo-rollouts", "argo-rollouts-metrics");
    DecodeTooFewFields("v1", "Service", "argo-rollouts");
    BadIdExample();
  }

  lemma BadIdExample()
    ensures DecodeId("bad id") == None
  {
    var id := "bad id";
    assert IndexOf(id, '/') == -1;
    assert IndexOf(id, '.') == -1;
    assert ApiEnd(id) == -1;
    assert id[0..] == id;
    assert SplitN(id, '.', 3) == [id];
  }
}
