/**
 * The bookkeeping of visJS_module.py around the page template: the input
 * checks and the deprecated-option overrides at the top of visjs_network,
 * the default filling of node records in check_nodes_dict, stringify_bool
 * and the graph size strings of create_graph_style_file.
 */
module VisjsOptions {
  import opened Wrappers

  /** The Python values the records and options hold. */
  datatype Value =
    | PyNone
    | PyBool(b: bool)
    | PyInt(i: int)
    | PyReal(r: real)
    | PyStr(s: string)
    | PyList(items: seq<Value>)

  /** A node or edge record: a dict from field names to values. */
  type Record = map<string, Value>

  /** An element of nodes_dict or edges_dict: a dict, or something else. */
  datatype Item = Dict(fields: Record) | NotDict

  // ---------------------------------------------------------------------
  // Input checks of visjs_network
  // ---------------------------------------------------------------------

  /** The first complaint visjs_network prints before returning None. */
  datatype InputError =
    | NodesEmpty
    | NodesNotDicts
    | NodeKeyMissing(key: string)
    | EdgesEmpty
    | EdgesNotDicts
    | EdgeKeyMissing(key: string)

  /** A list whose first element is a dict holding every one of the keys. */
  predicate FirstHolds(items: seq<Item>, keys: seq<string>) {
    |items| > 0 && items[0].Dict? && forall k :: 0 <= k < |keys| ==> keys[k] in items[0].fields
  }

  /** The first key in keys that the first element lacks. */
  function FirstMissing(fields: Record, keys: seq<string>): (r: Option<string>)
    ensures r.None? <==> forall k :: 0 <= k < |keys| ==> keys[k] in fields
    ensures r.Some? ==> r.value in keys && r.value !in fields
    ensures r.Some? ==> exists k :: 0 <= k < |keys| && keys[k] == r.value
                          && forall k' :: 0 <= k' < k ==> keys[k'] in fields
  {
    if keys == [] then None
    else if keys[0] !in fields then Some(keys[0])
    else
      var r := FirstMissing(fields, keys[1..]);
      if r.Some? then
        var k :| 0 <= k < |keys[1..]| && keys[1..][k] == r.value && forall k' :: 0 <= k' < k ==> keys[1..][k'] in fields;
        assert keys[k + 1] == r.value;
        r
      else r
  }

  /** The keys visjs_network demands of the first node and of the first edge, in the order it checks them. */
  const NodeKeys: seq<string> := ["id", "x", "y"]
  const EdgeKeys: seq<string> := ["source", "target"]

  /**
   * The checks at the top of visjs_network, in the order it makes them.
   * Nothing is drawn unless the first node is a dict with id, x and y and
   * the first edge a dict with source and target.
   */
  function ValidateInputs(nodes: seq<Item>, edges: seq<Item>): (r: Option<InputError>)
    ensures r.None? <==> FirstHolds(nodes, NodeKeys) && FirstHolds(edges, EdgeKeys)
    ensures r == Some(NodesEmpty) <==> |nodes| == 0
    ensures r == Some(NodesNotDicts) <==> |nodes| > 0 && nodes[0].NotDict?
    ensures (r.Some? && r.value.NodeKeyMissing?) <==>
      |nodes| > 0 && nodes[0].Dict? && FirstMissing(nodes[0].fields, NodeKeys).Some?
    ensures r.Some? && r.value.NodeKeyMissing? ==>
      |nodes| > 0 && nodes[0].Dict? && r.value.key in NodeKeys && r.value.key !in nodes[0].fields
      && Some(r.value.key) == FirstMissing(nodes[0].fields, NodeKeys)
    ensures r.Some? && (r.value.EdgesEmpty? || r.value.EdgesNotDicts? || r.value.EdgeKeyMissing?) ==>
      FirstHolds(nodes, NodeKeys)
    ensures r == Some(EdgesEmpty) <==> FirstHolds(nodes, NodeKeys) && |edges| == 0
    ensures r == Some(EdgesNotDicts) <==> FirstHolds(nodes, NodeKeys) && |edges| > 0 && edges[0].NotDict?
    ensures (r.Some? && r.value.EdgeKeyMissing?) <==>
      FirstHolds(nodes, NodeKeys) && |edges| > 0 && edges[0].Dict? && FirstMissing(edges[0].fields, EdgeKeys).Some?
    ensures r.Some? && r.value.EdgeKeyMissing? ==>
      |edges| > 0 && edges[0].Dict? && r.value.key in EdgeKeys && r.value.key !in edges[0].fields
      && Some(r.value.key) == FirstMissing(edges[0].fields, EdgeKeys)
  {
    if |nodes| == 0 then Some(NodesEmpty)
    else if nodes[0].NotDict? then Some(NodesNotDicts)
    else if FirstMissing(nodes[0].fields, NodeKeys).Some? then
      Some(NodeKeyMissing(FirstMissing(nodes[0].fields, NodeKeys).value))
    else if |edges| == 0 then Some(EdgesEmpty)
    else if edges[0].NotDict? then Some(EdgesNotDicts)
    else if FirstMissing(edges[0].fields, EdgeKeys).Some? then
      Some(EdgeKeyMissing(FirstMissing(edges[0].fields, EdgeKeys).value))
    else None
  }

  // ---------------------------------------------------------------------
  // Deprecated options of visjs_network
  // ---------------------------------------------------------------------

  /** The four label-scaling settings a node or an edge carries. */
  datatype LabelScaling = LabelScaling(drawThreshold: real, labelMin: real, labelMax: real, maxVisible: real)

  /** The options visjs_network passes on to the style file, as far as the overrides touch them. */
  datatype Settings = Settings(physicsEnabled: bool, graphId: int, node: LabelScaling, edge: LabelScaling)

  /** The arguments that override other options: None stands for Python's None. */
  datatype Overrides = Overrides(
    scalingFactor: real,
    timeStamp: int,
    drawThreshold: Option<real>,
    minLabelSize: Option<real>,
    maxLabelSize: Option<real>,
    maxVisible: Option<real>)

  function OrKeep(o: Option<real>, x: real): real {
    if o.Some? then o.value else x
  }

  /** A label scaling with every given override applied. */
  function OverrideScaling(l: LabelScaling, o: Overrides): LabelScaling {
    LabelScaling(OrKeep(o.drawThreshold, l.drawThreshold), OrKeep(o.minLabelSize, l.labelMin),
                 OrKeep(o.maxLabelSize, l.labelMax), OrKeep(o.maxVisible, l.maxVisible))
  }

  /** The settings after the prologue of visjs_network. */
  function Resolved(s: Settings, o: Overrides): (r: Settings)
    ensures r.physicsEnabled <==> s.physicsEnabled && o.scalingFactor <= 1.0
    ensures r.graphId == if o.timeStamp > 0 then o.timeStamp else s.graphId
    ensures o.drawThreshold.Some? ==> r.node.drawThreshold == r.edge.drawThreshold == o.drawThreshold.value
    ensures o.drawThreshold.None? ==> r.node.drawThreshold == s.node.drawThreshold && r.edge.drawThreshold == s.edge.drawThreshold
    ensures o.minLabelSize.Some? ==> r.node.labelMin == r.edge.labelMin == o.minLabelSize.value
    ensures o.minLabelSize.None? ==> r.node.labelMin == s.node.labelMin && r.edge.labelMin == s.edge.labelMin
    ensures o.maxLabelSize.Some? ==> r.node.labelMax == r.edge.labelMax == o.maxLabelSize.value
    ensures o.maxLabelSize.None? ==> r.node.labelMax == s.node.labelMax && r.edge.labelMax == s.edge.labelMax
    ensures o.maxVisible.Some? ==> r.node.maxVisible == r.edge.maxVisible == o.maxVisible.value
    ensures o.maxVisible.None? ==> r.node.maxVisible == s.node.maxVisible && r.edge.maxVisible == s.edge.maxVisible
  {
    Settings(s.physicsEnabled && !(o.scalingFactor > 1.0),
             if o.timeStamp > 0 then o.timeStamp else s.graphId,
             OverrideScaling(s.node, o), OverrideScaling(s.edge, o))
  }

  /**
   * The prologue itself: each test reassigns the options it governs, one
   * after the other.
   */
  method ResolveOptions(s: Settings, o: Overrides) returns (r: Settings)
    ensures r == Resolved(s, o)
  {
    var physicsEnabled := s.physicsEnabled;
    var graphId := s.graphId;
    var node := s.node;
    var edge := s.edge;
    if o.scalingFactor > 1.0 {
      physicsEnabled := false;
    }
    if o.timeStamp > 0 {
      graphId := o.timeStamp;
    }
    if o.drawThreshold.Some? {
      node := node.(drawThreshold := o.drawThreshold.value);
      edge := edge.(drawThreshold := o.drawThreshold.value);
    }
    if o.minLabelSize.Some? {
      node := node.(labelMin := o.minLabelSize.value);
      edge := edge.(labelMin := o.minLabelSize.value);
    }
    if o.maxLabelSize.Some? {
      node := node.(labelMax := o.maxLabelSize.value);
      edge := edge.(labelMax := o.maxLabelSize.value);
    }
    if o.maxVisible.Some? {
      node := node.(maxVisible := o.maxVisible.value);
      edge := edge.(maxVisible := o.maxVisible.value);
    }
    r := Settings(physicsEnabled, graphId, node, edge);
  }

  /** Applying the overrides a second time changes nothing. */
  lemma ResolvedIdempotent(s: Settings, o: Overrides)
    ensures Resolved(Resolved(s, o), o) == Resolved(s, o)
  {
  }

  /** With every override at its default, the options pass through unchanged. */
  lemma ResolvedDefaults(s: Settings)
    ensures Resolved(s, Overrides(1.0, 0, None, None, None, None)) == s
  {
  }

  // ---------------------------------------------------------------------
  // check_nodes_dict
  // ---------------------------------------------------------------------

  /** The five fields check_nodes_dict fills in, in the order it handles them. */
  const FilledKeys: seq<string> := ["node_shape", "color", "border_width", "title", "degree"]

  /** A node can take the default for key: only title needs something, the node's own id. */
  predicate CanFill(r: Record, key: string) {
    key == "title" ==> "id" in r
  }

  /** The default check_nodes_dict writes for key into node r. */
  function DefaultFor(key: string, r: Record): Value
    requires CanFill(r, key)
  {
    if key == "node_shape" then PyStr("dot")
    else if key == "color" then PyStr("#8BA8D3")
    else if key == "border_width" then PyInt(0)
    else if key == "title" then r["id"]
    else PyReal(3.0)
  }

  /** Every node with key set to its default. */
  function FillAll(nodes: seq<Record>, key: string): (r: seq<Record>)
    requires forall i :: 0 <= i < |nodes| ==> CanFill(nodes[i], key)
    ensures |r| == |nodes|
  {
    seq(|nodes|, i requires 0 <= i < |nodes| => nodes[i][key := DefaultFor(key, nodes[i])])
  }

  /** One step of check_nodes_dict: fill key everywhere unless the first node's keys hold it. */
  function FillStep(nodes: seq<Record>, key: string, firstKeys: set<string>): (r: seq<Record>)
    requires forall i :: 0 <= i < |nodes| ==> CanFill(nodes[i], key) || key in firstKeys
  {
    if key in firstKeys then nodes else FillAll(nodes, key)
  }

  /** check_nodes_dict can run: there is a first node, and every node has an id if titles must be filled. */
  predicate Fillable(nodes: seq<Record>) {
    |nodes| > 0 && ("title" !in nodes[0] ==> forall i :: 0 <= i < |nodes| ==> "id" in nodes[i])
  }

  /** The node list check_nodes_dict leaves behind: the five steps in order, all decided on the first node's keys. */
  function Filled(nodes: seq<Record>): seq<Record>
    requires Fillable(nodes)
  {
    var first := nodes[0].Keys;
    var s1 := FillStep(nodes, "node_shape", first);
    var s2 := FillStep(s1, "color", first);
    var s3 := FillStep(s2, "border_width", first);
    var s4 := FillStep(s3, "title", first);
    FillStep(s4, "degree", first)
  }

  /** One fill loop of check_nodes_dict, in place. */
  method FillKey(nodes: array<Record>, key: string)
    requires forall i :: 0 <= i < nodes.Length ==> CanFill(nodes[i], key)
    modifies nodes
    ensures nodes[..] == FillAll(old(nodes[..]), key)
  {
    ghost var before := nodes[..];
    for i := 0 to nodes.Length
      invariant nodes[i..] == before[i..]
      invariant nodes[..i] == FillAll(before, key)[..i]
    {
      nodes[i] := nodes[i][key := DefaultFor(key, nodes[i])];
      assert nodes[..i + 1] == FillAll(before, key)[..i + 1];
    }
    assert nodes[..] == nodes[..nodes.Length];
  }

  /** Filling key keeps every other field where it was. */
  lemma FillStepKeeps(nodes: seq<Record>, key: string, firstKeys: set<string>, other: string)
    requires forall i :: 0 <= i < |nodes| ==> CanFill(nodes[i], key) || key in firstKeys
    requires other != key
    ensures |FillStep(nodes, key, firstKeys)| == |nodes|
    ensures forall i :: 0 <= i < |nodes| ==> (other in FillStep(nodes, key, firstKeys)[i] <==> other in nodes[i])
    ensures forall i :: 0 <= i < |nodes| && other in nodes[i] ==> FillStep(nodes, key, firstKeys)[i][other] == nodes[i][other]
  {
  }

  /** The first three steps of check_nodes_dict, which need nothing of the nodes. */
  function ThreeFilled(nodes: seq<Record>): (r: seq<Record>)
    requires |nodes| > 0
    ensures |r| == |nodes|
    ensures forall i :: 0 <= i < |r| ==> ("id" in r[i] <==> "id" in nodes[i])
    ensures forall i :: 0 <= i < |r| ==> ("title" in r[i] <==> "title" in nodes[i])
    ensures forall i :: 0 <= i < |r| ==> ("degree" in r[i] <==> "degree" in nodes[i])
  {
    var first := nodes[0].Keys;
    var s1 := FillStep(nodes, "node_shape", first);
    var s2 := FillStep(s1, "color", first);
    FillStep(s2, "border_width", first)
  }

  /** The first node without an id. */
  function FirstWithoutId(nodes: seq<Record>): (k: nat)
    requires exists i :: 0 <= i < |nodes| && "id" !in nodes[i]
    ensures k < |nodes| && "id" !in nodes[k]
    ensures forall i :: 0 <= i < k ==> "id" in nodes[i]
  {
    if "id" !in nodes[0] then 0
    else
      var i :| 0 <= i < |nodes| && "id" !in nodes[i];
      assert "id" !in nodes[1..][i - 1];
      1 + FirstWithoutId(nodes[1..])
  }

  /** Two lists with ids in the same places have their first missing id in the same place. */
  lemma FirstWithoutIdSame(a: seq<Record>, b: seq<Record>)
    requires |a| == |b| && forall i :: 0 <= i < |a| ==> ("id" in a[i] <==> "id" in b[i])
    requires exists i :: 0 <= i < |a| && "id" !in a[i]
    ensures exists i :: 0 <= i < |b| && "id" !in b[i]
    ensures FirstWithoutId(a) == FirstWithoutId(b)
  {
    var ka := FirstWithoutId(a);
    assert "id" !in b[ka];
    var kb := FirstWithoutId(b);
    assert "id" !in a[kb];
  }

  /**
   * The node list check_nodes_dict leaves behind when it fails: the first
   * node has no title and node k, the first without an id, raises a KeyError.
   * By then the first three fields are filled on every node and the title on
   * the nodes before k; node k and the rest have no new title, and no degree
   * is filled.
   */
  function PartlyFilled(nodes: seq<Record>): (r: seq<Record>)
    requires |nodes| > 0 && !Fillable(nodes)
    ensures |r| == |nodes|
  {
    var t := ThreeFilled(nodes);
    var k := FirstWithoutId(nodes);
    FirstWithoutIdSame(nodes, t);
    FillAll(t[..k], "title") + t[k..]
  }

  /** Which nodes carry a title and a degree after the failure. */
  lemma PartlyFilledAt(s: seq<Record>, i: nat)
    requires |s| > 0 && !Fillable(s) && i < |s|
    ensures "title" in PartlyFilled(s)[i] <==> i < FirstWithoutId(s) || "title" in s[i]
    ensures "degree" in PartlyFilled(s)[i] <==> "degree" in s[i]
    ensures "id" in PartlyFilled(s)[i] <==> "id" in s[i]
  {
    var t := ThreeFilled(s);
    PartlyFilledSplit(s, i);
    if i < FirstWithoutId(s) {
      assert PartlyFilled(s)[i] == t[i]["title" := DefaultFor("title", t[i])];
    } else {
      assert PartlyFilled(s)[i] == t[i];
    }
  }

  /** Node i after the failure: the first three steps, then the title if it comes before the failing node. */
  lemma PartlyFilledSplit(s: seq<Record>, i: nat)
    requires |s| > 0 && !Fillable(s) && i < |s|
    ensures i < FirstWithoutId(s) ==>
      (CanFill(ThreeFilled(s)[i], "title")
       && PartlyFilled(s)[i] == ThreeFilled(s)[i]["title" := DefaultFor("title", ThreeFilled(s)[i])])
    ensures i >= FirstWithoutId(s) ==> PartlyFilled(s)[i] == ThreeFilled(s)[i]
  {
    var t := ThreeFilled(s);
    var k := FirstWithoutId(s);
    FirstWithoutIdSame(s, t);
    var r := PartlyFilled(s);
    var head := FillAll(t[..k], "title");
    var tail := t[k..];
    assert |head| == k;
    assert r == head + tail;
    if i < k {
      assert r[i] == head[i];
    } else {
      assert r[i] == tail[i - k];
    }
  }

  /**
   * The title loop of check_nodes_dict, in place: node i gets its own id as
   * title, until a node without an id raises a KeyError.
   */
  method FillTitles(nodes: array<Record>) returns (ok: bool)
    modifies nodes
    ensures ok <==> forall i :: 0 <= i < nodes.Length ==> "id" in old(nodes[i])
    ensures ok ==> nodes[..] == FillAll(old(nodes[..]), "title")
    ensures !ok ==> nodes[..] == FillAll(old(nodes[..])[..FirstWithoutId(old(nodes[..]))], "title")
                                 + old(nodes[..])[FirstWithoutId(old(nodes[..]))..]
  {
    ghost var before := nodes[..];
    for i := 0 to nodes.Length
      invariant nodes[i..] == before[i..]
      invariant forall k :: 0 <= k < i ==> "id" in before[k]
      invariant nodes[..i] == FillAll(before[..i], "title")
    {
      if "id" !in nodes[i] {
        assert before[i] == nodes[i];
        assert FirstWithoutId(before) == i;
        assert nodes[..] == nodes[..i] + nodes[i..];
        return false;
      }
      nodes[i] := nodes[i]["title" := DefaultFor("title", nodes[i])];
      assert nodes[..i + 1] == FillAll(before[..i + 1], "title");
    }
    assert nodes[..] == nodes[..nodes.Length];
    assert before[..nodes.Length] == before;
    return true;
  }

  /**
   * check_nodes_dict: for each of the five fields the first node lacks,
   * every node gets its default; the decision uses the first node's keys as
   * they were on entry. When titles are filled and a node has no id, the
   * KeyError leaves the list as PartlyFilled says.
   */
  method CheckNodesDict(nodes: array<Record>) returns (ok: bool)
    requires nodes.Length > 0
    modifies nodes
    ensures ok <==> Fillable(old(nodes[..]))
    ensures ok ==> nodes[..] == Filled(old(nodes[..]))
    ensures !ok ==> nodes[..] == PartlyFilled(old(nodes[..]))
  {
    ghost var s := nodes[..];
    var nodeKeys := nodes[0].Keys;
    if "node_shape" !in nodeKeys {
      FillKey(nodes, "node_shape");
    }
    ghost var s1 := nodes[..];
    FillStepKeeps(s, "node_shape", nodeKeys, "id");
    if "color" !in nodeKeys {
      FillKey(nodes, "color");
    }
    ghost var s2 := nodes[..];
    FillStepKeeps(s1, "color", nodeKeys, "id");
    if "border_width" !in nodeKeys {
      FillKey(nodes, "border_width");
    }
    FillStepKeeps(s2, "border_width", nodeKeys, "id");
    ghost var s3 := nodes[..];
    assert s3 == ThreeFilled(s);
    if "title" !in nodeKeys {
      var titled := FillTitles(nodes);
      if !titled {
        FirstWithoutIdSame(s, s3);
        return false;
      }
    }
    if "degree" !in nodeKeys {
      FillKey(nodes, "degree");
    }
    return true;
  }

  /** Node i after one step: the default for key added, or untouched. */
  lemma FillStepAt(nodes: seq<Record>, key: string, firstKeys: set<string>, i: nat)
    requires forall j :: 0 <= j < |nodes| ==> CanFill(nodes[j], key) || key in firstKeys
    requires i < |nodes|
    ensures |FillStep(nodes, key, firstKeys)| == |nodes|
    ensures CanFill(nodes[i], key) || key in firstKeys
    ensures FillStep(nodes, key, firstKeys)[i] == FillOne(nodes[i], key, firstKeys)
  {
  }

  /** One step on a single node. */
  function FillOne(r: Record, key: string, firstKeys: set<string>): Record
    requires CanFill(r, key) || key in firstKeys
  {
    if key in firstKeys then r else r[key := DefaultFor(key, r)]
  }

  /** The five steps on a single node. */
  function FillRecord(r: Record, firstKeys: set<string>): Record
    requires CanFill(r, "title") || "title" in firstKeys
  {
    var r1 := FillOne(r, "node_shape", firstKeys);
    var r2 := FillOne(r1, "color", firstKeys);
    var r3 := FillOne(r2, "border_width", firstKeys);
    var r4 := FillOne(r3, "title", firstKeys);
    FillOne(r4, "degree", firstKeys)
  }

  /** check_nodes_dict treats each node on its own, by the first node's keys. */
  lemma FilledIsPerNode(s: seq<Record>, i: nat)
    requires Fillable(s) && i < |s|
    ensures |Filled(s)| == |s| && Filled(s)[i] == FillRecord(s[i], s[0].Keys)
  {
    var first := s[0].Keys;
    var s1 := FillStep(s, "node_shape", first);
    FillStepAt(s, "node_shape", first, i);
    FillStepKeeps(s, "node_shape", first, "id");
    var s2 := FillStep(s1, "color", first);
    FillStepAt(s1, "color", first, i);
    FillStepKeeps(s1, "color", first, "id");
    var s3 := FillStep(s2, "border_width", first);
    FillStepAt(s2, "border_width", first, i);
    FillStepKeeps(s2, "border_width", first, "id");
    var s4 := FillStep(s3, "title", first);
    FillStepAt(s3, "title", first, i);
    FillStepAt(s4, "degree", first, i);
  }

  /** Field k of a filled node: its default if the first node lacks it and it is one of the five, else as before. */
  lemma FillRecordAt(r: Record, firstKeys: set<string>, k: string)
    requires CanFill(r, "title") || "title" in firstKeys
    ensures k in FillRecord(r, firstKeys) <==> k in r || (k in FilledKeys && k !in firstKeys)
    ensures k in FilledKeys && k !in firstKeys ==> CanFill(r, k) && FillRecord(r, firstKeys)[k] == DefaultFor(k, r)
    ensures k in r && (k !in FilledKeys || k in firstKeys) ==> FillRecord(r, firstKeys)[k] == r[k]
  {
    assert k in FilledKeys <==> k == "node_shape" || k == "color" || k == "border_width" || k == "title" || k == "degree";
  }

  /**
   * What check_nodes_dict does to node i: each of the five fields the first
   * node lacks is set to its default (title to node i's own id), and every
   * other field keeps its presence and its value.
   */
  lemma FilledAt(s: seq<Record>, i: nat, k: string)
    requires Fillable(s) && i < |s|
    ensures |Filled(s)| == |s|
    ensures k in Filled(s)[i] <==> k in s[i] || (k in FilledKeys && k !in s[0])
    ensures k in FilledKeys && k !in s[0] ==> CanFill(s[i], k) && Filled(s)[i][k] == DefaultFor(k, s[i])
    ensures k in s[i] && (k !in FilledKeys || k in s[0]) ==> Filled(s)[i][k] == s[i][k]
  {
    FilledIsPerNode(s, i);
    FillRecordAt(s[i], s[0].Keys, k);
  }

  /** After check_nodes_dict the first node holds all five fields. */
  lemma FilledFirstComplete(s: seq<Record>)
    requires Fillable(s)
    ensures Fillable(Filled(s))
    ensures forall k :: k in FilledKeys ==> k in Filled(s)[0]
  {
    forall k | k in FilledKeys ensures k in Filled(s)[0] {
      FilledAt(s, 0, k);
    }
    FilledAt(s, 0, "title");
  }

  /** A second call of check_nodes_dict changes nothing. */
  lemma FilledIdempotent(s: seq<Record>)
    requires Fillable(s)
    ensures Fillable(Filled(s)) && Filled(Filled(s)) == Filled(s)
  {
    FilledFirstComplete(s);
    var f := Filled(s);
    assert forall k :: k in FilledKeys ==> k in f[0].Keys;
    assert "node_shape" in FilledKeys && "color" in FilledKeys && "border_width" in FilledKeys
      && "title" in FilledKeys && "degree" in FilledKeys;
  }

  /** When the first node already holds all five fields, check_nodes_dict changes nothing. */
  lemma FilledComplete(s: seq<Record>)
    requires |s| > 0 && forall k :: k in FilledKeys ==> k in s[0]
    ensures Fillable(s) && Filled(s) == s
  {
    assert "node_shape" in FilledKeys && "color" in FilledKeys && "border_width" in FilledKeys
      && "title" in FilledKeys && "degree" in FilledKeys;
  }

  // ---------------------------------------------------------------------
  // create_graph_style_file
  // ---------------------------------------------------------------------

  /** Python truthiness: None, False, zero and empty strings or lists are false. */
  predicate Truthy(v: Value) {
    match v
    case PyNone => false
    case PyBool(b) => b
    case PyInt(i) => i != 0
    case PyReal(r) => r != 0.0
    case PyStr(s) => s != ""
    case PyList(items) => items != []
  }

  /** stringify_bool: a JavaScript boolean literal for a Python value. */
  function StringifyBool(v: Value): (r: string)
    ensures r == "true" || r == "false"
    ensures r == "true" <==> Truthy(v)
  {
    if Truthy(v) then "true" else "false"
  }

  /** A Python bool comes out as the JavaScript literal of the same truth value. */
  lemma StringifyBoolOfBool(b: bool)
    ensures StringifyBool(PyBool(b)) == if b then "true" else "false"
  {
  }

  function DigitChar(d: nat): (c: char)
    requires d < 10
    ensures '0' <= c <= '9' && c as int - '0' as int == d
  {
    (d + '0' as int) as char
  }

  /** str(n) for a natural number: its decimal digits, most significant first. */
  function NatToString(n: nat): (r: string)
    ensures |r| > 0
    decreases n
  {
    if n < 10 then [DigitChar(n)] else NatToString(n / 10) + [DigitChar(n % 10)]
  }

  /** str(i) for an integer, with a leading minus sign when negative. */
  function IntToString(i: int): (r: string)
    ensures |r| > 0
  {
    if i < 0 then "-" + NatToString(-i) else NatToString(i)
  }

  predicate AllDigits(s: string) {
    forall k :: 0 <= k < |s| ==> '0' <= s[k] <= '9'
  }

  /** The value of a non-empty string of decimal digits. */
  function ParseNat(s: string): nat
    requires |s| > 0 && AllDigits(s)
  {
    assert '0' <= s[|s| - 1] <= '9';
    var d := s[|s| - 1] as int - '0' as int;
    if |s| == 1 then d else ParseNat(s[..|s| - 1]) * 10 + d
  }

  /** int(s) for an optionally signed decimal numeral; None for anything else. */
  function ParseInt(s: string): Option<int> {
    if |s| > 1 && s[0] == '-' && AllDigits(s[1..]) then Some(-(ParseNat(s[1..]) as int))
    else if |s| > 0 && AllDigits(s) then Some(ParseNat(s))
    else None
  }

  /** Reading the digits of n back gives n. */
  lemma {:induction false} NatToStringRoundTrip(n: nat)
    ensures AllDigits(NatToString(n)) && ParseNat(NatToString(n)) == n
  {
    if n >= 10 {
      NatToStringRoundTrip(n / 10);
      var s := NatToString(n);
      assert s[..|s| - 1] == NatToString(n / 10);
    }
  }

  /** Reading str(i) back gives i. */
  lemma IntToStringRoundTrip(i: int)
    ensures ParseInt(IntToString(i)) == Some(i)
  {
    if i < 0 {
      var t := NatToString(-i);
      NatToStringRoundTrip(-i);
      assert IntToString(i) == "-" + t;
      assert ("-" + t)[1..] == t;
    } else {
      var t := NatToString(i);
      NatToStringRoundTrip(i);
      assert '0' <= t[0] <= '9';
    }
  }

  /** edge_length: the string 'undefined', or a length. */
  datatype EdgeLength = Undefined | Length(len: int)

  /** The size fields of the style file. */
  datatype GraphSize = GraphSize(width: string, height: string, edgeLength: EdgeLength)

  /**
   * The size computation of create_graph_style_file: width, height and a
   * defined edge_length are multiplied by scaling_factor; width and height
   * become "100%" when override_graph_size_to_max is set and "<n>px"
   * otherwise.
   */
  function SizeStrings(width: int, height: int, scalingFactor: int, edgeLength: EdgeLength, overrideToMax: bool): (r: GraphSize)
  {
    var w := scalingFactor * width;
    var h := scalingFactor * height;
    var l := match edgeLength
      case Undefined => Undefined
      case Length(len) => Length(len * scalingFactor);
    if overrideToMax then GraphSize("100%", "100%", l)
    else GraphSize(IntToString(w) + "px", IntToString(h) + "px", l)
  }

  /** The number in front of a "px" suffix, if there is one. */
  function ParsePixels(s: string): Option<int> {
    if |s| >= 2 && s[|s| - 2..] == "px" then ParseInt(s[..|s| - 2]) else None
  }

  /**
   * The page sizes read back as the scaled width and height in pixels, or
   * are both "100%"; edge_length stays 'undefined' or is scaled.
   */
  lemma SizeStringsMeaning(width: int, height: int, scalingFactor: int, edgeLength: EdgeLength, overrideToMax: bool)
    ensures var r := SizeStrings(width, height, scalingFactor, edgeLength, overrideToMax);
      && (overrideToMax ==> r.width == "100%" && r.height == "100%")
      && (!overrideToMax ==>
            ParsePixels(r.width) == Some(scalingFactor * width) && ParsePixels(r.height) == Some(scalingFactor * height))
      && (r.edgeLength.Undefined? <==> edgeLength.Undefined?)
      && (edgeLength.Length? ==> r.edgeLength.len == edgeLength.len * scalingFactor)
  {
    if !overrideToMax {
      var r := SizeStrings(width, height, scalingFactor, edgeLength, overrideToMax);
      IntToStringRoundTrip(scalingFactor * width);
      IntToStringRoundTrip(scalingFactor * height);
      assert r.width[..|r.width| - 2] == IntToString(scalingFactor * width);
      assert r.height[..|r.height| - 2] == IntToString(scalingFactor * height);
    }
  }
}
