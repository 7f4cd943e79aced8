/** The reads of the Terraform resource data (pkg/provider/resource_data.go): the module
    name, the change of the `resources` map, and whether parameters or set values are
    still unknown. The data object itself is reduced to the values these reads see. */
module ResourceData {
  import opened GoStrings

  /** The value Terraform stands in for a value that is unknown at plan time. */
  const UnknownValue: string := "74D93920-ED26-11E3-AC10-0800200C9A66"

  // ---------------------------------------------------------------- moduleName

  /** `moduleName`: the directory under `.terraform/modules/` the source lives in, or
      `module` when the source is not there. */
  function ModuleName(source: string): (r: string)
    ensures r == "module" || (HasPrefix(source, ".terraform/modules/" + r) && '/' !in r)
  {
    var parts := Split(source, '/');
    if |parts| >= 3 && parts[0] == ".terraform" && parts[1] == "modules" then
      JoinPrefix(parts);
      parts[2]
    else "module"
  }

  /** A joined path starts with its first piece. */
  lemma JoinStartsWith(parts: seq<string>, c: char)
    requires |parts| >= 1
    ensures HasPrefix(Join(parts, c), parts[0])
  {
    if |parts| > 1 {
      assert Join(parts, c) == parts[0] + ([c] + Join(parts[1..], c));
    }
  }

  lemma JoinCons(parts: seq<string>, c: char)
    requires |parts| >= 2
    ensures Join(parts, c) == parts[0] + [c] + Join(parts[1..], c)
  {
  }

  lemma PrefixConcat(p: string, tail: string, q: string)
    requires HasPrefix(tail, q)
    ensures HasPrefix(p + tail, p + q)
  {
    assert (p + tail)[..|p| + |q|] == p + tail[..|q|];
  }

  /** The path `a/b/c/...` starts with `a/b/c`. */
  lemma JoinPrefix(parts: seq<string>)
    requires |parts| >= 3
    ensures HasPrefix(Join(parts, '/'), parts[0] + "/" + parts[1] + "/" + parts[2])
  {
    var tail := Join(parts[2..], '/');
    JoinStartsWith(parts[2..], '/');
    JoinCons(parts[1..], '/');
    assert parts[1..][1..] == parts[2..];
    JoinCons(parts, '/');
    var p := parts[0] + "/" + parts[1] + "/";
    assert Join(parts, '/') == p + tail;
    PrefixConcat(p, tail, parts[2]);
  }

  /** A source under `.terraform/modules/<name>` is named `<name>`. */
  lemma ModuleNameOfModulePath(parts: seq<string>)
    requires |parts| >= 3 && parts[0] == ".terraform" && parts[1] == "modules"
    requires forall i :: 0 <= i < |parts| ==> '/' !in parts[i]
    ensures ModuleName(Join(parts, '/')) == parts[2]
  {
    SplitJoin(parts, '/');
  }

  /** A source with no `/` is named `module`. */
  lemma ModuleNameOfPlainSource(source: string)
    requires '/' !in source
    ensures ModuleName(source) == "module"
  {
    SplitJoin([source], '/');
  }

  // ---------------------------------------------------------------- getResourceChanges

  /** The four groups of resource identifiers, each in the order it was found. */
  datatype ResourceChanges = ResourceChanges(
    added: seq<string>,
    updated: seq<string>,
    removed: seq<string>,
    unmodified: seq<string>)

  /** `order` lists the keys of a map once each: the order Go's `range` visits them in. */
  ghost predicate Enumerates(order: seq<string>, keys: set<string>) {
    (forall k :: k in order <==> k in keys) && Distinct(order)
  }

  /** No element occurs twice. */
  predicate Distinct(s: seq<string>) {
    forall i, j :: 0 <= i < j < |s| ==> s[i] != s[j]
  }

  /** The groups as sets: a reference definition of the change. */
  function Removed(prior: map<string, string>, planned: map<string, string>): set<string> {
    set k | k in prior && k !in planned
  }

  function Added(prior: map<string, string>, planned: map<string, string>): set<string> {
    set k | k in planned && k !in prior
  }

  function Updated(prior: map<string, string>, planned: map<string, string>): set<string> {
    set k | k in prior && k in planned && prior[k] != planned[k]
  }

  function Unchanged(prior: map<string, string>, planned: map<string, string>): set<string> {
    set k | k in prior && k in planned && prior[k] == planned[k]
  }

  /** The first loop: each prior key, in `order`, is removed, updated or unchanged. */
  function ClassifyPrior(order: seq<string>, prior: map<string, string>, planned: map<string, string>): (c: ResourceChanges)
    requires forall k :: k in order ==> k in prior
    ensures c.added == []
    ensures forall k :: k in c.removed <==> k in order && k !in planned
    ensures forall k :: k in c.updated <==> k in order && k in planned && prior[k] != planned[k]
    ensures forall k :: k in c.unmodified <==> k in order && k in planned && prior[k] == planned[k]
    ensures |c.removed| + |c.updated| + |c.unmodified| == |order|
  {
    if |order| == 0 then ResourceChanges([], [], [], [])
    else
      var last := order[|order| - 1];
      var c := ClassifyPrior(order[..|order| - 1], prior, planned);
      assert forall k :: k in order <==> k in order[..|order| - 1] || k == last by {
        assert order == order[..|order| - 1] + [last];
      }
      if last !in planned then c.(removed := c.removed + [last])
      else if prior[last] != planned[last] then c.(updated := c.updated + [last])
      else c.(unmodified := c.unmodified + [last])
  }

  /** The second loop: the planned keys, in `order`, that were not there before. */
  function AddedKeys(order: seq<string>, prior: map<string, string>): (added: seq<string>)
    ensures forall k :: k in added <==> k in order && k !in prior
    ensures |added| <= |order|
  {
    if |order| == 0 then []
    else
      var last := order[|order| - 1];
      var added := AddedKeys(order[..|order| - 1], prior);
      assert forall k :: k in order <==> k in order[..|order| - 1] || k == last by {
        assert order == order[..|order| - 1] + [last];
      }
      if last !in prior then added + [last] else added
  }

  /** `getResourceChanges`: the prior map is walked in `priorOrder` and the planned map in
      `plannedOrder`, the orders Go's map iteration happened to take. */
  function GetResourceChanges(prior: map<string, string>, planned: map<string, string>,
                              priorOrder: seq<string>, plannedOrder: seq<string>): (c: ResourceChanges)
    requires Enumerates(priorOrder, prior.Keys) && Enumerates(plannedOrder, planned.Keys)
    ensures forall k :: k in c.removed <==> k in Removed(prior, planned)
    ensures forall k :: k in c.added <==> k in Added(prior, planned)
    ensures forall k :: k in c.updated <==> k in Updated(prior, planned)
    ensures forall k :: k in c.unmodified <==> k in Unchanged(prior, planned)
  {
    var c := ClassifyPrior(priorOrder, prior, planned);
    c.(added := AddedKeys(plannedOrder, prior))
  }

  /** Removed, updated and unchanged split the prior keys; added, updated and unchanged
      split the planned keys. */
  lemma ChangesPartition(prior: map<string, string>, planned: map<string, string>)
    ensures Removed(prior, planned) + Updated(prior, planned) + Unchanged(prior, planned) == prior.Keys
    ensures Added(prior, planned) + Updated(prior, planned) + Unchanged(prior, planned) == planned.Keys
    ensures Removed(prior, planned) * Updated(prior, planned) == {}
    ensures Removed(prior, planned) * Unchanged(prior, planned) == {}
    ensures Updated(prior, planned) * Unchanged(prior, planned) == {}
    ensures Added(prior, planned) * Updated(prior, planned) == {}
    ensures Added(prior, planned) * Unchanged(prior, planned) == {}
  {
  }

  /** Each identifier appears once in its group, since each map key is visited once. */
  lemma {:induction false} ClassifyPriorDistinct(order: seq<string>, prior: map<string, string>, planned: map<string, string>)
    requires forall k :: k in order ==> k in prior
    requires Distinct(order)
    ensures var c := ClassifyPrior(order, prior, planned);
      Distinct(c.removed) && Distinct(c.updated) && Distinct(c.unmodified)
    decreases |order|
  {
    if |order| > 0 {
      var init := order[..|order| - 1];
      var last := order[|order| - 1];
      assert last !in init;
      ClassifyPriorDistinct(init, prior, planned);
      var c := ClassifyPrior(init, prior, planned);
      assert last !in c.removed && last !in c.updated && last !in c.unmodified;
      DistinctAppend(c.removed, last);
      DistinctAppend(c.updated, last);
      DistinctAppend(c.unmodified, last);
    }
  }

  /** Nothing is removed when the plan keeps every resource as it was. */
  lemma {:induction false} NothingRemovedFromItself(order: seq<string>, m: map<string, string>)
    requires forall k :: k in order ==> k in m
    ensures ClassifyPrior(order, m, m).removed == []
    decreases |order|
  {
    if |order| > 0 {
      NothingRemovedFromItself(order[..|order| - 1], m);
    }
  }

  /** Appending a new element keeps a sequence free of repeats. */
  lemma DistinctAppend(s: seq<string>, x: string)
    requires Distinct(s) && x !in s
    ensures Distinct(s + [x])
  {
    var t := s + [x];
    forall i, j | 0 <= i < j < |t| ensures t[i] != t[j] {
      if j == |s| { assert t[i] == s[i]; }
    }
  }

  /** The resources of the provider's test: resource1 kept its hash, resource2 changed,
      resource3 went away, resource4 and resource5 are new. */
  lemma ResourceChangesExample(prior: map<string, string>, planned: map<string, string>)
    requires prior == map["resource1" := "hash1", "resource2" := "hash2", "resource3" := "hash3"]
    requires planned == map["resource1" := "hash1", "resource2" := "hash2updated",
                            "resource4" := "hash4", "resource5" := "hash5"]
    ensures Added(prior, planned) == {"resource4", "resource5"}
    ensures Updated(prior, planned) == {"resource2"}
    ensures Removed(prior, planned) == {"resource3"}
    ensures Unchanged(prior, planned) == {"resource1"}
  {
    assert prior.Keys == {"resource1", "resource2", "resource3"};
    assert planned.Keys == {"resource1", "resource2", "resource4", "resource5"};
  }

  // ---------------------------------------------------------------- unknown inputs

  /** What the data says of `parameters`: whether it changed, whether it is set, and its
      value. */
  datatype Parameters = Parameters(changed: bool, present: bool, value: map<string, string>)

  /** `getHasUnknownParameters`: Terraform empties the whole map when any parameter is
      unknown, so a changed, present, empty map means unknown parameters. */
  predicate HasUnknownParameters(p: Parameters) {
    p.changed && p.present && |p.value| == 0
  }

  /** An element of the `set` block. */
  datatype SetParam = SetParam(name: string, value: string, placeholder: string)

  /** `getHasUnknownSetValues`: the elements are scanned until one holds the unknown
      sentinel. */
  function HasUnknownSetValues(params: seq<SetParam>): (r: bool)
    ensures r <==> exists i :: 0 <= i < |params| && params[i].value == UnknownValue
  {
    if |params| == 0 then false
    else if params[0].value == UnknownValue then true
    else
      var r := HasUnknownSetValues(params[1..]);
      assert forall i :: 1 <= i < |params| ==> params[i] == params[1..][i - 1];
      r
  }
}
