/// The dialog reader: it loads a graph container into a graph of nodes and
/// their options, and walks it one message at a time.
module DialogReaders {
  import opened Options
  import opened Collections
  import opened SerializableDictionaries
  import opened DialogData
  import opened DialogContainers
  import opened DialogNodes

  // ---------------------------------------------------------------------
  // Dictionaries in enumeration order.
  // ---------------------------------------------------------------------

  /// A dictionary's lookup on its entries: the value under the key, if any.
  function Get<K(==), V>(entries: seq<(K, V)>, k: K): (r: Option<V>)
    ensures r.Some? <==> k in KeysOf(entries)
  {
    if entries == [] then None
    else if entries[0].0 == k then Some(entries[0].1)
    else Get(entries[1..], k)
  }

  /// A dictionary's indexer set: an existing key keeps its place and takes
  /// the new value; a new key goes last.
  function Assign<K(==), V>(entries: seq<(K, V)>, k: K, v: V): (r: seq<(K, V)>)
    ensures KeysOf(r) == if k in KeysOf(entries) then KeysOf(entries) else KeysOf(entries) + [k]
  {
    if entries == [] then [(k, v)]
    else if entries[0].0 == k then [(k, v)] + entries[1..]
    else [entries[0]] + Assign(entries[1..], k, v)
  }

  /// After an assignment the key reads back the new value and every other
  /// key its old one.
  lemma {:induction false} AssignGet<K, V>(entries: seq<(K, V)>, k: K, v: V, k': K)
    ensures Get(Assign(entries, k, v), k') == if k' == k then Some(v) else Get(entries, k')
  {
    if entries != [] && entries[0].0 != k {
      AssignGet(entries[1..], k, v, k');
    }
  }

  /// Assignment keeps the keys distinct.
  lemma AssignDistinct<K, V>(entries: seq<(K, V)>, k: K, v: V)
    requires Distinct(KeysOf(entries))
    ensures Distinct(KeysOf(Assign(entries, k, v)))
  {
    if k !in KeysOf(entries) {
      DistinctAppend(KeysOf(entries), [k]);
    }
  }

  // ---------------------------------------------------------------------
  // What _load builds.
  // ---------------------------------------------------------------------

  /// The text GetDataCopy finds for an id: the stored one, "" when missing.
  function TextOf(texts: map<Guid, string>, id: Guid): string {
    if id in texts then texts[id] else ""
  }

  /// The resource's table after GetDataCopy has run on the first n of ds:
  /// every id it lacked now holds "".
  function Filled(texts: map<Guid, string>, ds: seq<DialogNodeData>, n: nat): (r: map<Guid, string>)
    requires n <= |ds|
    decreases n
  {
    if n == 0 then texts
    else
      var t := Filled(texts, ds, n - 1);
      var id := ds[n - 1].id;
      if id in t then t else t[id := ""]
  }

  /// Filling adds "" under the missing ids of ds and nothing else, so it
  /// never changes the text GetDataCopy finds.
  lemma {:induction false} FilledTexts(texts: map<Guid, string>, ds: seq<DialogNodeData>, n: nat)
    requires n <= |ds|
    ensures forall id :: id in Filled(texts, ds, n) <==> id in texts || exists k :: 0 <= k < n && ds[k].id == id
    ensures forall id :: TextOf(Filled(texts, ds, n), id) == TextOf(texts, id)
    decreases n
  {
    if n > 0 {
      FilledTexts(texts, ds, n - 1);
    }
  }

  /// The copy GetDataCopy returns, given the resource's table before the
  /// loop (None when there is no resource).
  function CopyFor(d: DialogNodeData, texts: Option<map<Guid, string>>): (r: DialogNodeData)
    ensures r.id == d.id && r.characterId == d.characterId && r.ports == d.ports
    ensures texts.Some? ==> r.text == TextOf(texts.value, d.id)
    ensures texts.None? ==> r == d
  {
    match texts
    case None => d
    case Some(t) => d.(text := TextOf(t, d.id))
  }

  /// The node with the given data id among the entries of the node
  /// dictionary.
  function Lookup(nodes: seq<DialogNode>, id: Guid): (r: Option<DialogNode>)
    ensures r.Some? ==> r.value in nodes && r.value.data.id == id
    ensures r.None? ==> forall n :: n in nodes ==> n.data.id != id
  {
    if nodes == [] then None
    else if nodes[0].data.id == id then Some(nodes[0])
    else Lookup(nodes[1..], id)
  }

  /// The ids of the nodes in the dictionary are its keys, so no two agree.
  ghost predicate DistinctIds(nodes: seq<DialogNode>) {
    forall a, b :: 0 <= a < b < |nodes| ==> nodes[a].data.id != nodes[b].data.id
  }

  /// What the first loop of _load reads besides the node data: the identity
  /// the first node gets, the graph resource's table before the loop (None
  /// when there is none), the graph's characters and the character
  /// localisation's table; asWritten chooses the factory as written over
  /// the corrected one.
  datatype LoadContext = LoadContext(ref0: NodeRef, texts: Option<map<Guid, string>>,
                                     chars: seq<CharacterData>, charTexts: Option<map<Guid, string>>,
                                     asWritten: bool)

  /// The node the first loop of _load builds for the k-th data.
  function NodeAt(datas: seq<DialogNodeData>, k: nat, cx: LoadContext): Option<DialogNode>
    requires k < |datas|
  {
    if cx.asWritten then NodeForAsWritten(cx.ref0 + k, CopyFor(datas[k], cx.texts), cx.chars, cx.charTexts)
    else NodeFor(cx.ref0 + k, CopyFor(datas[k], cx.texts), cx.chars, cx.charTexts)
  }

  /// The first n data can be built into a node dictionary: every node
  /// builds and no two data share an id.
  ghost predicate Buildable(datas: seq<DialogNodeData>, n: nat, cx: LoadContext)
    requires n <= |datas|
  {
    (forall k :: 0 <= k < n ==> NodeAt(datas, k, cx).Some?) &&
    (forall a, b :: 0 <= a < b < n ==> datas[a].id != datas[b].id)
  }

  /// The entries of the node dictionary after the first loop of _load: one
  /// node per node data, in order, numbered from ref0.
  function BuildNodes(datas: seq<DialogNodeData>, cx: LoadContext): (ns: seq<DialogNode>)
    requires Buildable(datas, |datas|, cx)
    ensures |ns| == |datas|
    ensures forall k :: 0 <= k < |datas| ==>
      ns[k].ref == cx.ref0 + k && ns[k].data == CopyFor(datas[k], cx.texts)
  {
    seq(|datas|, k requires 0 <= k < |datas| => NodeAt(datas, k, cx).value)
  }

  /// The dictionary's keys are distinct because the data's ids are.
  lemma BuildNodesDistinct(datas: seq<DialogNodeData>, cx: LoadContext)
    requires Buildable(datas, |datas|, cx)
    ensures DistinctIds(BuildNodes(datas, cx))
  {
    var ns := BuildNodes(datas, cx);
    forall a, b | 0 <= a < b < |ns|
      ensures ns[a].data.id != ns[b].data.id
    {
      assert ns[a].data.id == datas[a].id && ns[b].data.id == datas[b].id;
    }
  }

  /// Option j of node n, as the node's constructor built it.
  function OptionOf(n: DialogNode, j: nat): DialogChoiceOption
    requires j < |n.data.ports|
  {
    DialogChoiceOption(n.ref, n.data.ports[j], j)
  }

  /// A node's options dictionary: choice options and the nodes they lead
  /// to, in enumeration order.
  type OptionTable = seq<(DialogChoiceOption, DialogNode)>

  /// Whether the link starts from port j of node n.
  predicate StartsAt(link: NodeLinkData, n: DialogNode, j: nat)
    requires j < |n.data.ports|
  {
    link.basePortID == n.data.ports[j].id
  }

  /// The port loop of _load for one link, from port j on: every port the
  /// link starts from maps its option to the link's target. None where it
  /// throws, because the target is not in the node dictionary.
  function LinkPorts(es: OptionTable, n: DialogNode, link: NodeLinkData, target: Option<DialogNode>, j: nat): Option<OptionTable>
    decreases |n.data.ports| - j
  {
    if j >= |n.data.ports| then Some(es)
    else if StartsAt(link, n, j) then
      if target.None? then None else LinkPorts(Assign(es, OptionOf(n, j), target.value), n, link, target, j + 1)
    else LinkPorts(es, n, link, target, j + 1)
  }

  /// The link loop of _load for node n: the node's options dictionary after
  /// the given links. None where it throws.
  function NodeOptions(n: DialogNode, links: seq<NodeLinkData>, nodes: seq<DialogNode>): Option<OptionTable>
    decreases |links|
  {
    if links == [] then Some([])
    else match NodeOptions(n, links[..|links| - 1], nodes)
      case None => None
      case Some(es) =>
        var link := links[|links| - 1];
        LinkPorts(es, n, link, Lookup(nodes, link.targetNodeID), 0)
  }

  /// The options of a dictionary are options of node n, with no key twice.
  ghost predicate OwnOptions(es: OptionTable, n: DialogNode) {
    Distinct(KeysOf(es)) &&
    forall i :: 0 <= i < |es| ==> exists j :: 0 <= j < |n.data.ports| && es[i].0 == OptionOf(n, j)
  }

  /// Options with different indices are different options.
  lemma OptionsDiffer(n: DialogNode, j: nat, j': nat)
    requires j < |n.data.ports| && j' < |n.data.ports| && j != j'
    ensures OptionOf(n, j) != OptionOf(n, j')
  {
    assert OptionOf(n, j).index != OptionOf(n, j').index;
  }

  /// Assigning one of its own options keeps a dictionary's options own.
  lemma AssignOwn(es: OptionTable, n: DialogNode, j: nat, v: DialogNode)
    requires OwnOptions(es, n) && j < |n.data.ports|
    ensures OwnOptions(Assign(es, OptionOf(n, j), v), n)
  {
    AssignDistinct(es, OptionOf(n, j), v);
    var r := Assign(es, OptionOf(n, j), v);
    forall i | 0 <= i < |r|
      ensures exists j' :: 0 <= j' < |n.data.ports| && r[i].0 == OptionOf(n, j')
    {
      assert r[i].0 == KeysOf(r)[i];
      if i < |es| {
        assert KeysOf(es)[i] == es[i].0;
      }
    }
  }

  /// The port loop for one link throws exactly when the link starts from
  /// one of the remaining ports and has no target.
  lemma {:induction false} LinkPortsThrows(es: OptionTable, n: DialogNode, link: NodeLinkData, target: Option<DialogNode>, j0: nat)
    ensures LinkPorts(es, n, link, target, j0).Some? <==>
      target.Some? || forall j :: j0 <= j < |n.data.ports| ==> !StartsAt(link, n, j)
    decreases |n.data.ports| - j0
  {
    if j0 < |n.data.ports| {
      if StartsAt(link, n, j0) {
        if target.Some? {
          LinkPortsThrows(Assign(es, OptionOf(n, j0), target.value), n, link, target, j0 + 1);
        }
      } else {
        LinkPortsThrows(es, n, link, target, j0 + 1);
      }
    }
  }

  /// The port loop keeps a dictionary's options own.
  lemma {:induction false} LinkPortsOwn(es: OptionTable, n: DialogNode, link: NodeLinkData, target: Option<DialogNode>, j0: nat)
    requires OwnOptions(es, n) && LinkPorts(es, n, link, target, j0).Some?
    ensures OwnOptions(LinkPorts(es, n, link, target, j0).value, n)
    decreases |n.data.ports| - j0
  {
    if j0 < |n.data.ports| {
      if StartsAt(link, n, j0) {
        AssignOwn(es, n, j0, target.value);
        LinkPortsOwn(Assign(es, OptionOf(n, j0), target.value), n, link, target, j0 + 1);
      } else {
        LinkPortsOwn(es, n, link, target, j0 + 1);
      }
    }
  }

  /// After the port loop, each remaining port the link starts from reads
  /// back the target and every other option keeps its value.
  lemma {:induction false} LinkPortsGet(es: OptionTable, n: DialogNode, link: NodeLinkData, target: Option<DialogNode>,
                                        j0: nat, j: nat)
    requires j < |n.data.ports| && LinkPorts(es, n, link, target, j0).Some?
    ensures Get(LinkPorts(es, n, link, target, j0).value, OptionOf(n, j)) ==
      if j0 <= j && StartsAt(link, n, j) then target else Get(es, OptionOf(n, j))
    decreases |n.data.ports| - j0
  {
    if j0 < |n.data.ports| {
      if StartsAt(link, n, j0) {
        var es' := Assign(es, OptionOf(n, j0), target.value);
        LinkPortsGet(es', n, link, target, j0 + 1, j);
        AssignGet(es, OptionOf(n, j0), target.value, OptionOf(n, j));
        if j != j0 {
          OptionsDiffer(n, j, j0);
        }
      } else {
        LinkPortsGet(es, n, link, target, j0 + 1, j);
      }
    }
  }

  /// The last of the links that starts from the port with the given id.
  function LastLink(links: seq<NodeLinkData>, port: Guid): (r: Option<NodeLinkData>)
    ensures r.Some? ==> r.value in links && r.value.basePortID == port
    ensures r.None? <==> forall l :: l in links ==> l.basePortID != port
  {
    if links == [] then None
    else if links[|links| - 1].basePortID == port then Some(links[|links| - 1])
    else LastLink(links[..|links| - 1], port)
  }

  /// A link the loop of node n can follow without throwing: it starts from
  /// none of n's ports, or its target is in the node dictionary.
  predicate Resolves(link: NodeLinkData, n: DialogNode, nodes: seq<DialogNode>) {
    Lookup(nodes, link.targetNodeID).Some? || forall j :: 0 <= j < |n.data.ports| ==> !StartsAt(link, n, j)
  }

  /// The link loop of a node throws exactly when one of the links starts
  /// from one of its ports and has no target.
  lemma {:induction false} NodeOptionsThrows(n: DialogNode, links: seq<NodeLinkData>, nodes: seq<DialogNode>)
    ensures NodeOptions(n, links, nodes).Some? <==> forall i :: 0 <= i < |links| ==> Resolves(links[i], n, nodes)
    decreases |links|
  {
    if links != [] {
      var front, link := links[..|links| - 1], links[|links| - 1];
      NodeOptionsThrows(n, front, nodes);
      if NodeOptions(n, front, nodes).Some? {
        LinkPortsThrows(NodeOptions(n, front, nodes).value, n, link, Lookup(nodes, link.targetNodeID), 0);
      }
      assert forall i :: 0 <= i < |front| ==> front[i] == links[i];
    }
  }

  /// The options of a node's dictionary are its own, each at most once.
  lemma {:induction false} NodeOptionsOwn(n: DialogNode, links: seq<NodeLinkData>, nodes: seq<DialogNode>)
    requires NodeOptions(n, links, nodes).Some?
    ensures OwnOptions(NodeOptions(n, links, nodes).value, n)
    decreases |links|
  {
    if links != [] {
      var front, link := links[..|links| - 1], links[|links| - 1];
      NodeOptionsOwn(n, front, nodes);
      LinkPortsOwn(NodeOptions(n, front, nodes).value, n, link, Lookup(nodes, link.targetNodeID), 0);
    } else {
      assert KeysOf<DialogChoiceOption, DialogNode>([]) == [];
    }
  }

  /// Only linked ports become options: option j is in a node's dictionary
  /// exactly when some link starts from port j, and it leads to the target
  /// of the last such link.
  lemma {:induction false} NodeOptionsGet(n: DialogNode, links: seq<NodeLinkData>, nodes: seq<DialogNode>, j: nat)
    requires j < |n.data.ports| && NodeOptions(n, links, nodes).Some?
    ensures Get(NodeOptions(n, links, nodes).value, OptionOf(n, j)) ==
      match LastLink(links, n.data.ports[j].id)
      case None => None
      case Some(l) => Lookup(nodes, l.targetNodeID)
    decreases |links|
  {
    if links != [] {
      var front, link := links[..|links| - 1], links[|links| - 1];
      NodeOptionsGet(n, front, nodes, j);
      LinkPortsGet(NodeOptions(n, front, nodes).value, n, link, Lookup(nodes, link.targetNodeID), 0, j);
    }
  }

  /// In a dictionary with distinct keys, each entry's key reads back its value.
  lemma {:induction false} GetAt<K, V>(entries: seq<(K, V)>, i: nat)
    requires Distinct(KeysOf(entries)) && i < |entries|
    ensures Get(entries, entries[i].0) == Some(entries[i].1)
  {
    if i > 0 {
      assert KeysOf(entries)[0] != KeysOf(entries)[i];
      assert Distinct(KeysOf(entries[1..])) by {
        forall a, b | 0 <= a < b < |entries| - 1
          ensures KeysOf(entries[1..])[a] != KeysOf(entries[1..])[b]
        {
          assert KeysOf(entries)[a + 1] != KeysOf(entries)[b + 1];
        }
      }
      GetAt(entries[1..], i - 1);
    }
  }

  /// Every option of a node's dictionary leads to a node of the dictionary.
  lemma NodeOptionsTargets(n: DialogNode, links: seq<NodeLinkData>, nodes: seq<DialogNode>)
    requires NodeOptions(n, links, nodes).Some?
    ensures forall i :: 0 <= i < |NodeOptions(n, links, nodes).value| ==> NodeOptions(n, links, nodes).value[i].1 in nodes
  {
    var es := NodeOptions(n, links, nodes).value;
    NodeOptionsOwn(n, links, nodes);
    forall i | 0 <= i < |es|
      ensures es[i].1 in nodes
    {
      var j :| 0 <= j < |n.data.ports| && es[i].0 == OptionOf(n, j);
      GetAt(es, i);
      NodeOptionsGet(n, links, nodes, j);
    }
  }

  /// The nodes whose link loops all succeed: the second loop of _load
  /// throws exactly when some node's does.
  ghost predicate Linkable(ns: seq<DialogNode>, links: seq<NodeLinkData>) {
    forall n :: n in ns ==> NodeOptions(n, links, ns).Some?
  }

  /// Graph after _load: each node with its options dictionary.
  function GraphOf(ns: seq<DialogNode>, links: seq<NodeLinkData>): (g: map<DialogNode, OptionTable>)
    requires Linkable(ns, links)
    ensures g.Keys == set n | n in ns
  {
    map n | n in ns :: NodeOptions(n, links, ns).value
  }

  /// The graph is closed: every option of every node leads to a node of the
  /// graph, and each node's options are its own, each at most once.
  lemma GraphClosed(ns: seq<DialogNode>, links: seq<NodeLinkData>)
    requires Linkable(ns, links)
    ensures forall n :: n in GraphOf(ns, links) ==> OwnOptions(GraphOf(ns, links)[n], n)
    ensures forall n, i :: n in GraphOf(ns, links) && 0 <= i < |GraphOf(ns, links)[n]| ==>
      GraphOf(ns, links)[n][i].1 in GraphOf(ns, links)
  {
    forall n | n in ns
      ensures OwnOptions(GraphOf(ns, links)[n], n)
      ensures forall i :: 0 <= i < |GraphOf(ns, links)[n]| ==> GraphOf(ns, links)[n][i].1 in ns
    {
      NodeOptionsOwn(n, links, ns);
      NodeOptionsTargets(n, links, ns);
    }
  }

  /// A value found under a key is the value of one of the entries.
  lemma {:induction false} GetIn<K, V>(entries: seq<(K, V)>, k: K)
    requires Get(entries, k).Some?
    ensures exists i :: 0 <= i < |entries| && entries[i].1 == Get(entries, k).value
  {
    if entries[0].0 != k {
      GetIn(entries[1..], k);
      var i :| 0 <= i < |entries| - 1 && entries[1..][i].1 == Get(entries[1..], k).value;
      assert entries[i + 1].1 == Get(entries, k).value;
    }
  }

  /// Among nodes with distinct ids, each node is the one found by its id.
  lemma {:induction false} LookupAt(nodes: seq<DialogNode>, k: nat)
    requires DistinctIds(nodes) && k < |nodes|
    ensures Lookup(nodes, nodes[k].data.id) == Some(nodes[k])
  {
    if k > 0 {
      assert nodes[0].data.id != nodes[k].data.id;
      LookupAt(nodes[1..], k - 1);
    }
  }

  /// The node the first loop of _load builds for each data, in order.
  ghost function Built(datas: seq<DialogNodeData>, cx: LoadContext): (b: seq<Option<DialogNode>>)
    ensures |b| == |datas| && forall k :: 0 <= k < |datas| ==> b[k] == NodeAt(datas, k, cx)
  {
    seq(|datas|, k requires 0 <= k < |datas| => NodeAt(datas, k, cx))
  }

  /// The first loop of _load over the first n data, given the node each
  /// data builds to: None once a node fails to build or its id is already
  /// a key.
  ghost function Scan(built: seq<Option<DialogNode>>, datas: seq<DialogNodeData>, n: nat): Option<seq<DialogNode>>
    requires n <= |datas| && |built| == |datas|
    decreases n
  {
    if n == 0 then Some([])
    else match Scan(built, datas, n - 1)
      case None => None
      case Some(ns) =>
        if built[n - 1].None? || Lookup(ns, datas[n - 1].id).Some? then None else Some(ns + [built[n - 1].value])
  }

  /// The first loop of _load over the first n data, as it runs.
  ghost function NodesUpTo(datas: seq<DialogNodeData>, n: nat, cx: LoadContext): Option<seq<DialogNode>>
    requires n <= |datas|
  {
    Scan(Built(datas, cx), datas, n)
  }

  /// Once the loop has thrown it stays thrown.
  lemma {:induction false} ScanFails(built: seq<Option<DialogNode>>, datas: seq<DialogNodeData>, n: nat, m: nat)
    requires n <= m <= |datas| && |built| == |datas| && Scan(built, datas, n).None?
    ensures Scan(built, datas, m).None?
    decreases m
  {
    if m > n {
      ScanFails(built, datas, n, m - 1);
    }
  }

  /// Where the loop gets through the first n data, it has built their
  /// nodes, in order.
  lemma {:induction false} ScanShape(built: seq<Option<DialogNode>>, datas: seq<DialogNodeData>, n: nat)
    requires n <= |datas| && |built| == |datas| && Scan(built, datas, n).Some?
    ensures |Scan(built, datas, n).value| == n
    ensures forall k :: 0 <= k < n ==> built[k].Some? && Scan(built, datas, n).value[k] == built[k].value
    decreases n
  {
    if n > 0 {
      ScanShape(built, datas, n - 1);
    }
  }

  /// Where each node carries its data's id, the loop gets through the first
  /// n data exactly when each of them builds and no two share an id.
  lemma {:induction false} ScanFits(built: seq<Option<DialogNode>>, datas: seq<DialogNodeData>, n: nat)
    requires n <= |datas| && |built| == |datas|
    requires forall k :: 0 <= k < |built| && built[k].Some? ==> built[k].value.data.id == datas[k].id
    ensures Scan(built, datas, n).Some? <==>
      (forall k :: 0 <= k < n ==> built[k].Some?) && (forall a, b :: 0 <= a < b < n ==> datas[a].id != datas[b].id)
    decreases n
  {
    if n > 0 {
      ScanFits(built, datas, n - 1);
      var front := Scan(built, datas, n - 1);
      if front.Some? {
        ScanShape(built, datas, n - 1);
        LookupFinds(datas, n - 1, front.value);
      }
    }
  }

  /// In the nodes built from the first n data, a node has the id of the
  /// next data exactly when one of the first n data has it.
  lemma LookupFinds(datas: seq<DialogNodeData>, n: nat, ns: seq<DialogNode>)
    requires n < |datas| && |ns| == n
    requires forall k :: 0 <= k < n ==> ns[k].data.id == datas[k].id
    ensures Lookup(ns, datas[n].id).Some? <==> exists k :: 0 <= k < n && datas[k].id == datas[n].id
  {
    var found := Lookup(ns, datas[n].id);
    if found.Some? {
      var k :| 0 <= k < n && ns[k] == found.value;
      assert datas[k].id == datas[n].id;
    } else {
      forall k | 0 <= k < n
        ensures datas[k].id != datas[n].id
      {
        assert ns[k] in ns;
      }
    }
  }

  /// Each node built carries the id of its data.
  lemma BuiltIds(datas: seq<DialogNodeData>, cx: LoadContext)
    ensures forall k :: 0 <= k < |datas| && Built(datas, cx)[k].Some? ==> Built(datas, cx)[k].value.data.id == datas[k].id
  {
  }

  /// The loop gets through the first n data exactly when they are
  /// buildable.
  lemma NodesUpToBuilds(datas: seq<DialogNodeData>, n: nat, cx: LoadContext)
    requires n <= |datas|
    ensures NodesUpTo(datas, n, cx).Some? <==> Buildable(datas, n, cx)
  {
    BuiltIds(datas, cx);
    ScanFits(Built(datas, cx), datas, n);
  }

  /// Where the loop gets through all the data, it yields the dictionary the
  /// declarative description gives.
  lemma NodesUpToValue(datas: seq<DialogNodeData>, cx: LoadContext)
    requires NodesUpTo(datas, |datas|, cx).Some?
    ensures Buildable(datas, |datas|, cx) && NodesUpTo(datas, |datas|, cx).value == BuildNodes(datas, cx)
  {
    NodesUpToBuilds(datas, |datas|, cx);
    ScanShape(Built(datas, cx), datas, |datas|);
  }

  /// A link loop that throws on a prefix of the links throws on them all.
  lemma NodeOptionsPrefix(n: DialogNode, links: seq<NodeLinkData>, nodes: seq<DialogNode>, i: nat)
    requires i <= |links| && NodeOptions(n, links[..i], nodes).None?
    ensures NodeOptions(n, links, nodes).None?
  {
    NodeOptionsThrows(n, links[..i], nodes);
    NodeOptionsThrows(n, links, nodes);
    var k :| 0 <= k < i && !Resolves(links[..i][k], n, nodes);
    assert links[..i][k] == links[k];
  }

  /// The link loop of _load for one node, as the loops it is written with.
  method LinkNode(n: DialogNode, links: seq<NodeLinkData>, nodes: seq<DialogNode>) returns (r: Option<OptionTable>)
    requires n.choiceOptions == ChoiceOptionsOf(n.ref, n.data.ports)
    ensures r == NodeOptions(n, links, nodes)
  {
    var es: OptionTable := [];
    for i := 0 to |links|
      invariant NodeOptions(n, links[..i], nodes) == Some(es)
    {
      var link := links[i];
      assert links[..i + 1][..i] == links[..i];
      ghost var es0 := es;
      ghost var target := Lookup(nodes, link.targetNodeID);
      for j := 0 to |n.data.ports|
        invariant LinkPorts(es0, n, link, target, 0) == LinkPorts(es, n, link, target, j)
      {
        if link.basePortID == n.data.ports[j].id {
          var t := Lookup(nodes, link.targetNodeID);
          if t.None? {
            NodeOptionsPrefix(n, links, nodes, i + 1);
            return None;
          }
          es := Assign(es, n.choiceOptions[j], t.value);
        }
      }
    }
    assert links[..|links|] == links;
    r := Some(es);
  }

  /// One step of the first loop of _load: the copy of one container's data,
  /// read through the graph's resource, and the node the factory builds
  /// from it. The resource gains "" under a missing id, and the node's
  /// character record, if any, is pointed at the character localisation.
  method LoadOne(container: DialogGraphContainer, item: DialogNodeDataContainer,
                 characterLocalisation: LocalisationResource?, ref: NodeRef, asWritten: bool,
                 ghost datas: seq<DialogNodeData>, ghost i: nat, ghost cx: LoadContext) returns (node: Option<DialogNode>)
    requires i < |datas| && item.data == datas[i] && ref == cx.ref0 + i && asWritten == cx.asWritten
    requires container.characterList == cx.chars && TextsOf(characterLocalisation) == cx.charTexts
    requires CopyFor(datas[i], TextsOf(container.localisationResource)) == CopyFor(datas[i], cx.texts)
    requires container.localisationResource == null || container.localisationResource != characterLocalisation
    modifies container.localisationResource, container.characterList
    ensures node == NodeAt(datas, i, cx)
    ensures TextsOf(characterLocalisation) == cx.charTexts
    ensures container.localisationResource != null ==>
      container.localisationResource.texts ==
        var t := old(container.localisationResource.texts);
        if datas[i].id in t then t else t[datas[i].id := ""]
    ensures forall c :: c in cx.chars ==>
      c.resource == if c == CharacterFor(cx.chars, datas[i].characterId) then characterLocalisation else old(c.resource)
  {
    var data := item.GetDataCopy(container.localisationResource);
    if asWritten {
      node := GetDialogNodeAsWritten(container, data, characterLocalisation, ref);
    } else {
      node := GetDialogNode(container, data, characterLocalisation, ref);
    }
  }

  /// One step of the first loop of _load: it throws when the node does not
  /// build or its id is already a key, and otherwise appends the node.
  lemma NodesUpToNext(datas: seq<DialogNodeData>, i: nat, cx: LoadContext, nodes: seq<DialogNode>)
    requires i < |datas| && NodesUpTo(datas, i, cx) == Some(nodes)
    ensures NodesUpTo(datas, i + 1, cx) ==
      if NodeAt(datas, i, cx).None? || Lookup(nodes, datas[i].id).Some? then None
      else Some(nodes + [NodeAt(datas, i, cx).value])
  {
  }

  /// The loop throws for good where the next node does not build or its id
  /// is already a key.
  lemma NodesUpToThrows(datas: seq<DialogNodeData>, i: nat, cx: LoadContext, nodes: seq<DialogNode>)
    requires i < |datas| && NodesUpTo(datas, i, cx) == Some(nodes)
    requires NodeAt(datas, i, cx).None? || Lookup(nodes, datas[i].id).Some?
    ensures NodesUpTo(datas, |datas|, cx).None?
  {
    NodesUpToNext(datas, i, cx, nodes);
    ScanFails(Built(datas, cx), datas, i + 1, |datas|);
  }

  /// What the first loop of _load has done to the resources after the first
  /// i data: it has filled the graph resource's table for them and pointed
  /// their character records at the character localisation; the other
  /// records keep the resources they had before the loop.
  ghost predicate LoadedUpTo(res: LocalisationResource?, characterLocalisation: LocalisationResource?,
                             datas: seq<DialogNodeData>, i: nat, cx: LoadContext,
                             before: map<CharacterData, LocalisationResource?>)
    requires i <= |datas|
    reads res, characterLocalisation, cx.chars
  {
    (cx.texts.None? <==> res == null) &&
    (cx.texts.Some? ==> res.texts == Filled(cx.texts.value, datas, i)) &&
    TextsOf(characterLocalisation) == cx.charTexts &&
    forall c :: c in cx.chars ==>
      c in before && c.resource == if c in ReferencedUpTo(cx.chars, datas, i) then characterLocalisation else before[c]
  }

  /// An iteration of the first loop of _load, from the key lookup to the
  /// Add. ok is false where it throws.
  method LoadStep(container: DialogGraphContainer, item: DialogNodeDataContainer,
                  characterLocalisation: LocalisationResource?, ref: NodeRef, asWritten: bool, nodes: seq<DialogNode>,
                  ghost datas: seq<DialogNodeData>, ghost i: nat, ghost cx: LoadContext,
                  ghost before: map<CharacterData, LocalisationResource?>)
    returns (ok: bool, nodes': seq<DialogNode>)
    requires i < |datas| && item.data == datas[i] && ref == cx.ref0 + i && container.characterList == cx.chars
    requires asWritten == cx.asWritten
    requires container.localisationResource == null || container.localisationResource != characterLocalisation
    requires NodesUpTo(datas, i, cx) == Some(nodes)
    requires LoadedUpTo(container.localisationResource, characterLocalisation, datas, i, cx, before)
    modifies container.localisationResource, container.characterList
    ensures ok <==> NodesUpTo(datas, i + 1, cx).Some?
    ensures !ok ==> NodesUpTo(datas, |datas|, cx).None?
    ensures ok ==> NodesUpTo(datas, i + 1, cx) == Some(nodes')
    ensures ok ==> LoadedUpTo(container.localisationResource, characterLocalisation, datas, i + 1, cx, before)
  {
    if cx.texts.Some? {
      FilledTexts(cx.texts.value, datas, i);
    }
    var known := Lookup(nodes, item.Id());
    var node := LoadOne(container, item, characterLocalisation, ref, asWritten, datas, i, cx);
    NodesUpToNext(datas, i, cx, nodes);
    if node.None? || known.Some? {
      NodesUpToThrows(datas, i, cx, nodes);
      return false, nodes;
    }
    nodes' := nodes + [node.value];
    ok := true;
  }

  /// What _load succeeds on: data that build, and nodes whose links all
  /// resolve.
  ghost predicate Loads(datas: seq<DialogNodeData>, cx: LoadContext, links: seq<NodeLinkData>) {
    Buildable(datas, |datas|, cx) && Linkable(BuildNodes(datas, cx), links)
  }

  /// The graph a successful _load builds: closed, each node's options its
  /// own, and every node new, numbered from ref0 on.
  lemma LoadedGraph(datas: seq<DialogNodeData>, cx: LoadContext, links: seq<NodeLinkData>)
    requires Loads(datas, cx, links)
    ensures var g := GraphOf(BuildNodes(datas, cx), links);
      Closed(g) && (forall n :: n in g ==> cx.ref0 <= n.ref < cx.ref0 + |datas| && OwnOptions(g[n], n))
  {
    var ns := BuildNodes(datas, cx);
    GraphClosed(ns, links);
    forall n | n in ns
      ensures cx.ref0 <= n.ref < cx.ref0 + |datas|
    {
      var k :| 0 <= k < |ns| && ns[k] == n;
    }
  }

  // ---------------------------------------------------------------------
  // What NextMessage follows.
  // ---------------------------------------------------------------------

  /// What a Condition asset answers for a node and an option index.
  type ConditionAnswers = (ConditionRef, DialogNode, int) -> bool

  /// An option is viable at a node when it has no condition or its
  /// condition holds there.
  predicate Viable(o: DialogChoiceOption, at: DialogNode, isTrue: ConditionAnswers) {
    o.Condition().None? || isTrue(o.Condition().value, at, o.index)
  }

  /// Enumerable.First over the keys: the position of the first viable
  /// option, or the length when there is none.
  function FirstViable(es: OptionTable, at: DialogNode, isTrue: ConditionAnswers): (i: nat)
    ensures i <= |es|
    ensures i < |es| ==> Viable(es[i].0, at, isTrue)
    ensures forall k :: 0 <= k < i ==> !Viable(es[k].0, at, isTrue)
  {
    if es == [] then 0
    else if Viable(es[0].0, at, isTrue) then 0
    else 1 + FirstViable(es[1..], at, isTrue)
  }

  /// Enumerable.Count over the keys: how many options are viable.
  function CountViable(es: OptionTable, at: DialogNode, isTrue: ConditionAnswers): (c: nat)
    ensures c <= |es|
  {
    if es == [] then 0
    else (if Viable(es[0].0, at, isTrue) then 1 else 0) + CountViable(es[1..], at, isTrue)
  }

  /// Some option is viable exactly when First finds one.
  lemma {:induction false} CountFirst(es: OptionTable, at: DialogNode, isTrue: ConditionAnswers)
    ensures CountViable(es, at, isTrue) >= 1 <==> FirstViable(es, at, isTrue) < |es|
  {
    if es != [] && !Viable(es[0].0, at, isTrue) {
      CountFirst(es[1..], at, isTrue);
    }
  }

  /// Where NextMessage moves from the current node: along the given choice,
  /// or else along the first viable option. None where it throws: the node
  /// is not in the graph, no option is viable, or the choice is not one of
  /// the node's options.
  function NextNode(graph: map<DialogNode, OptionTable>, current: DialogNode, choice: Option<DialogChoiceOption>,
                    isTrue: ConditionAnswers): Option<DialogNode>
  {
    if current !in graph then None
    else
      var es := graph[current];
      if choice.Some? then Get(es, choice.value)
      else
        var i := FirstViable(es, current, isTrue);
        if i < |es| then Get(es, es[i].0) else None
  }

  /// From a node of the graph, a given choice leads where the node's
  /// dictionary maps it, and no choice leads along the first viable option.
  lemma NextNodeFollows(graph: map<DialogNode, OptionTable>, current: DialogNode, choice: Option<DialogChoiceOption>,
                        isTrue: ConditionAnswers)
    requires current in graph && Distinct(KeysOf(graph[current]))
    ensures choice.Some? ==> NextNode(graph, current, choice, isTrue) == Get(graph[current], choice.value)
    ensures choice.None? ==>
      var es := graph[current];
      var i := FirstViable(es, current, isTrue);
      NextNode(graph, current, choice, isTrue) == if i < |es| then Some(es[i].1) else None
  {
    var es := graph[current];
    var i := FirstViable(es, current, isTrue);
    if choice.None? && i < |es| {
      GetAt(es, i);
    }
  }

  /// The dialog goes on after showing a node of the graph when the node has
  /// options and one of them is viable; otherwise NextMessage ends it.
  predicate Continues(graph: map<DialogNode, OptionTable>, n: DialogNode, isTrue: ConditionAnswers)
    requires n in graph
  {
    |graph[n]| > 0 && CountViable(graph[n], n, isTrue) >= 1
  }

  /// Where the dialog goes on, asking for the next message without a choice
  /// does not throw, as long as the conditions answer as before.
  lemma ContinuesMoves(graph: map<DialogNode, OptionTable>, n: DialogNode, isTrue: ConditionAnswers)
    requires n in graph && Distinct(KeysOf(graph[n])) && Continues(graph, n, isTrue)
    ensures NextNode(graph, n, None, isTrue).Some?
  {
    CountFirst(graph[n], n, isTrue);
    NextNodeFollows(graph, n, None, isTrue);
  }

  // ---------------------------------------------------------------------
  // The reader.
  // ---------------------------------------------------------------------

  /// The character records of the first n data, as the first loop of
  /// _load points them at the character localisation one by one.
  ghost function ReferencedUpTo(chars: seq<CharacterData>, datas: seq<DialogNodeData>, n: nat): set<CharacterData>
    requires n <= |datas|
    decreases n
  {
    if n == 0 then {}
    else
      var c := CharacterFor(chars, datas[n - 1].characterId);
      ReferencedUpTo(chars, datas, n - 1) + if c == null then {} else {c}
  }

  /// The records referenced are exactly the characters of the data.
  lemma {:induction false} ReferencedMeans(chars: seq<CharacterData>, datas: seq<DialogNodeData>, n: nat, c: CharacterData)
    requires n <= |datas|
    ensures c in ReferencedUpTo(chars, datas, n) <==> exists k :: 0 <= k < n && CharacterFor(chars, datas[k].characterId) == c
    decreases n
  {
    if n > 0 {
      ReferencedMeans(chars, datas, n - 1, c);
    }
  }

  /// The events the reader fires, in the order it fires them.
  datatype ReaderEvent = DialogStarted(node: Option<DialogNode>) | NextMessageShown(node: Option<DialogNode>) | DialogEnded

  /// Where NextMessage moves: to the start node on the first call, else as
  /// NextNode says. None where it throws before moving.
  function Moved(current: Option<DialogNode>, start: Option<DialogNode>, graph: map<DialogNode, OptionTable>,
                 choice: Option<DialogChoiceOption>, isTrue: ConditionAnswers): Option<Option<DialogNode>>
  {
    if current.None? then Some(start)
    else match NextNode(graph, current.value, choice, isTrue)
      case None => None
      case Some(n) => Some(Some(n))
  }

  /// The graph is closed when every option of every node leads to a node
  /// of the graph.
  ghost predicate Closed(graph: map<DialogNode, OptionTable>) {
    forall n, i :: n in graph && 0 <= i < |graph[n]| ==> graph[n][i].1 in graph
  }

  /// In a closed graph, moving from one of its nodes never leaves the
  /// graph.
  lemma ClosedMoves(graph: map<DialogNode, OptionTable>, current: DialogNode, choice: Option<DialogChoiceOption>,
                    isTrue: ConditionAnswers)
    requires Closed(graph) && current in graph && Distinct(KeysOf(graph[current]))
    ensures NextNode(graph, current, choice, isTrue).Some? ==> NextNode(graph, current, choice, isTrue).value in graph
  {
    var es := graph[current];
    NextNodeFollows(graph, current, choice, isTrue);
    if choice.Some? && Get(es, choice.value).Some? {
      var i :| 0 <= i < |es| && KeysOf(es)[i] == choice.value;
      GetAt(es, i);
    }
  }

  /// The nodes the first loop of _load built from all the data: the
  /// declarative dictionary, with distinct ids, each node with its own
  /// options and numbered from ref0.
  lemma LoadedNodes(datas: seq<DialogNodeData>, cx: LoadContext)
    requires NodesUpTo(datas, |datas|, cx).Some?
    ensures Buildable(datas, |datas|, cx)
    ensures var nodes := NodesUpTo(datas, |datas|, cx).value;
      nodes == BuildNodes(datas, cx) && DistinctIds(nodes) &&
      forall n :: n in nodes ==> n.choiceOptions == ChoiceOptionsOf(n.ref, n.data.ports) && cx.ref0 <= n.ref < cx.ref0 + |datas|
  {
    NodesUpToValue(datas, cx);
    BuildNodesDistinct(datas, cx);
    var nodes := BuildNodes(datas, cx);
    forall n | n in nodes
      ensures n.choiceOptions == ChoiceOptionsOf(n.ref, n.data.ports) && cx.ref0 <= n.ref < cx.ref0 + |datas|
    {
      var k :| 0 <= k < |nodes| && nodes[k] == n;
      assert NodeAt(datas, k, cx).Some?;
    }
  }

  /// A graph whose entries are nodes with the options their link loops
  /// give: each node's options are its own, and lead to the nodes.
  lemma LinkedGraph(nodes: seq<DialogNode>, links: seq<NodeLinkData>, graph: map<DialogNode, OptionTable>)
    requires forall n :: n in graph ==> n in nodes && NodeOptions(n, links, nodes) == Some(graph[n])
    ensures forall n :: n in graph ==> OwnOptions(graph[n], n)
    ensures forall n, i :: n in graph && 0 <= i < |graph[n]| ==> graph[n][i].1 in nodes
  {
    forall n | n in graph
      ensures OwnOptions(graph[n], n) && forall i :: 0 <= i < |graph[n]| ==> graph[n][i].1 in nodes
    {
      NodeOptionsOwn(n, links, nodes);
      NodeOptionsTargets(n, links, nodes);
    }
  }

  /// The first loop of _load: for each node container, a copy of its data
  /// read through the graph's resource, and a node built from the copy,
  /// keyed by the data's id. ok is false where it throws; next is the
  /// identity after the nodes built.
  method BuildAll(container: DialogGraphContainer, characterLocalisation: LocalisationResource?, ref0: NodeRef,
                  asWritten: bool, ghost datas: seq<DialogNodeData>, ghost cx: LoadContext)
    returns (ok: bool, nodes: seq<DialogNode>, next: NodeRef)
    requires |datas| == |container.dialogNodeDataList|
    requires forall k :: 0 <= k < |datas| ==> container.dialogNodeDataList[k].data == datas[k]
    requires cx == LoadContext(ref0, TextsOf(container.localisationResource), container.characterList,
                               TextsOf(characterLocalisation), asWritten)
    requires container.localisationResource == null || container.localisationResource != characterLocalisation
    modifies container.localisationResource, container.characterList
    ensures next >= ref0
    ensures (ok <==> NodesUpTo(datas, |datas|, cx).Some?) && (ok ==> nodes == NodesUpTo(datas, |datas|, cx).value)
    ensures ok ==> next == ref0 + |datas|
    ensures ok && cx.texts.Some? ==> container.localisationResource.texts == Filled(cx.texts.value, datas, |datas|)
    ensures ok ==> forall c :: c in cx.chars ==>
      c.resource == if c in ReferencedUpTo(cx.chars, datas, |datas|) then characterLocalisation else old(c.resource)
  {
    var list := container.dialogNodeDataList;
    ghost var before := map c | c in cx.chars :: c.resource;
    next := ref0;
    nodes := [];
    for i := 0 to |list|
      invariant next == ref0 + i
      invariant NodesUpTo(datas, i, cx) == Some(nodes)
      invariant LoadedUpTo(container.localisationResource, characterLocalisation, datas, i, cx, before)
    {
      var stepped;
      stepped, nodes := LoadStep(container, list[i], characterLocalisation, next, asWritten, nodes, datas, i, cx, before);
      next := next + 1;
      if !stepped {
        return false, nodes, next;
      }
    }
    ok := true;
  }

  /// What the second loop of _load has done after the first i nodes: each
  /// of them is in the graph, every entry holds the options its link loop
  /// gives, and the start node is the one of them with the start id, if
  /// any.
  ghost predicate LinkedUpTo(nodes: seq<DialogNode>, links: seq<NodeLinkData>, sid: Guid, start0: Option<DialogNode>,
                             i: nat, g: map<DialogNode, OptionTable>, start: Option<DialogNode>)
    requires i <= |nodes|
  {
    (forall k :: 0 <= k < i ==> nodes[k] in g) &&
    (forall n :: n in g ==> n in nodes && NodeOptions(n, links, nodes) == Some(g[n])) &&
    start == (if exists k :: 0 <= k < i && nodes[k].data.id == sid then Lookup(nodes, sid) else start0) &&
    (start == start0 || (start.Some? && start.value in nodes))
  }

  /// An iteration of the second loop of _load: the i-th node becomes the
  /// start node if it has the start id, and enters the graph with the
  /// options its links give. ok is false where the links throw.
  method LinkStep(nodes: seq<DialogNode>, links: seq<NodeLinkData>, sid: Guid, start0: Option<DialogNode>,
                  i: nat, g: map<DialogNode, OptionTable>, start: Option<DialogNode>)
    returns (ok: bool, g': map<DialogNode, OptionTable>, start': Option<DialogNode>)
    requires i < |nodes| && DistinctIds(nodes)
    requires forall n :: n in nodes ==> n.choiceOptions == ChoiceOptionsOf(n.ref, n.data.ports)
    requires LinkedUpTo(nodes, links, sid, start0, i, g, start)
    ensures forall n :: n in g' ==> n in nodes && NodeOptions(n, links, nodes) == Some(g'[n])
    ensures start' == start0 || (start'.Some? && start'.value in nodes)
    ensures ok ==> LinkedUpTo(nodes, links, sid, start0, i + 1, g', start')
    ensures !ok ==> !Linkable(nodes, links)
  {
    var n := nodes[i];
    start' := start;
    if n.data.id == sid {
      LookupAt(nodes, i);
      start' := Some(n);
    }
    var es := LinkNode(n, links, nodes);
    if es.None? {
      assert !Linkable(nodes, links) by {
        assert n in nodes;
      }
      return false, g, start';
    }
    g' := g[n := es.value];
    ok := true;
    assert (exists k :: 0 <= k < i + 1 && nodes[k].data.id == sid) <==>
      (n.data.id == sid || exists k :: 0 <= k < i && nodes[k].data.id == sid);
  }

  /// The second loop of _load: each node enters the graph with the
  /// options its links give it, and the node with the start id becomes the
  /// start node; start0 is kept when no node has the id. ok is false where
  /// it throws; the graph then holds the nodes finished before.
  method LinkNodes(nodes: seq<DialogNode>, links: seq<NodeLinkData>, sid: Guid, start0: Option<DialogNode>)
    returns (ok: bool, g: map<DialogNode, OptionTable>, start: Option<DialogNode>)
    requires DistinctIds(nodes)
    requires forall n :: n in nodes ==> n.choiceOptions == ChoiceOptionsOf(n.ref, n.data.ports)
    ensures ok <==> Linkable(nodes, links)
    ensures ok ==> g == GraphOf(nodes, links)
    ensures ok ==> start == if Lookup(nodes, sid).Some? then Lookup(nodes, sid) else start0
    ensures forall n :: n in g ==> n in nodes && NodeOptions(n, links, nodes) == Some(g[n])
    ensures start == start0 || (start.Some? && start.value in nodes)
  {
    g := map[];
    start := start0;
    for i := 0 to |nodes|
      invariant LinkedUpTo(nodes, links, sid, start0, i, g, start)
    {
      ok, g, start := LinkStep(nodes, links, sid, start0, i, g, start);
      if !ok {
        return;
      }
    }
    LinkedAll(nodes, links, sid, start0, g, start);
    ok := true;
  }

  /// Once the second loop has gone through every node, the graph is the one
  /// the links give and the start node the one with the start id, if any.
  lemma LinkedAll(nodes: seq<DialogNode>, links: seq<NodeLinkData>, sid: Guid, start0: Option<DialogNode>,
                  g: map<DialogNode, OptionTable>, start: Option<DialogNode>)
    requires LinkedUpTo(nodes, links, sid, start0, |nodes|, g, start)
    ensures Linkable(nodes, links) && g == GraphOf(nodes, links)
    ensures start == if Lookup(nodes, sid).Some? then Lookup(nodes, sid) else start0
  {
    if Lookup(nodes, sid).Some? {
      var k :| 0 <= k < |nodes| && nodes[k] == Lookup(nodes, sid).value;
    }
    forall n | n in nodes
      ensures n in g
    {
      var k :| 0 <= k < |nodes| && nodes[k] == n;
    }
    GraphFrom(nodes, links, g);
  }

  /// A graph holding every node, each with the options its link loop
  /// gives, is the graph the links give.
  lemma GraphFrom(nodes: seq<DialogNode>, links: seq<NodeLinkData>, g: map<DialogNode, OptionTable>)
    requires forall n :: n in nodes ==> n in g
    requires forall n :: n in g ==> n in nodes && NodeOptions(n, links, nodes) == Some(g[n])
    ensures Linkable(nodes, links) && g == GraphOf(nodes, links)
  {
    assert g.Keys == GraphOf(nodes, links).Keys;
  }

  /// The move NextMessage makes before it changes anything: the start node
  /// on the first call, else the node the choice, or failing one the first
  /// viable option, leads to. None where it throws.
  method Advance(graph: map<DialogNode, OptionTable>, current: Option<DialogNode>, start: Option<DialogNode>,
                 choice: Option<DialogChoiceOption>, isTrue: ConditionAnswers)
    returns (m: Option<Option<DialogNode>>)
    ensures m == Moved(current, start, graph, choice, isTrue)
    ensures current.Some? && m.Some? ==>
      current.value in graph && m.value.Some? &&
      exists i :: 0 <= i < |graph[current.value]| && graph[current.value][i].1 == m.value.value
  {
    if current.None? {
      return Some(start);
    }
    var cur := current.value;
    if cur !in graph {
      return None;
    }
    var es := graph[cur];
    var key: DialogChoiceOption;
    if choice.Some? {
      key := choice.value;
    } else {
      var i := FirstViable(es, cur, isTrue);
      if i == |es| {
        return None;
      }
      key := es[i].0;
    }
    var next := Get(es, key);
    if next.None? {
      return None;
    }
    GetIn(es, key);
    m := Some(next);
  }

  /// Every node a reader knows was built before bound, and each node's
  /// options are its own, each at most once.
  ghost predicate Bounded(graph: map<DialogNode, OptionTable>, current: Option<DialogNode>, start: Option<DialogNode>,
                          bound: NodeRef)
  {
    (forall n :: n in graph ==> n.ref < bound && OwnOptions(graph[n], n)) &&
    (forall n, i :: n in graph && 0 <= i < |graph[n]| ==> graph[n][i].1.ref < bound) &&
    (current.Some? ==> current.value.ref < bound) &&
    (start.Some? ==> start.value.ref < bound)
  }

  /// What the two loops of _load leave, when the first one finished: the
  /// graph the links give when the second one finishes too, and a reader
  /// whose nodes were all built before the next identity either way.
  lemma LoadedBoth(datas: seq<DialogNodeData>, cx: LoadContext, links: seq<NodeLinkData>, sid: Guid,
                   nodes: seq<DialogNode>, ok: bool, g: map<DialogNode, OptionTable>,
                   current: Option<DialogNode>, start0: Option<DialogNode>, start: Option<DialogNode>)
    requires NodesUpTo(datas, |datas|, cx) == Some(nodes)
    requires (ok <==> Linkable(nodes, links)) && (ok ==> g == GraphOf(nodes, links))
    requires ok ==> start == if Lookup(nodes, sid).Some? then Lookup(nodes, sid) else start0
    requires forall n :: n in g ==> n in nodes && NodeOptions(n, links, nodes) == Some(g[n])
    requires start == start0 || (start.Some? && start.value in nodes)
    requires (current.Some? ==> current.value.ref < cx.ref0) && (start0.Some? ==> start0.value.ref < cx.ref0)
    ensures ok <==> Loads(datas, cx, links)
    ensures ok ==> g == GraphOf(BuildNodes(datas, cx), links) && Closed(g)
    ensures ok ==> var ns := BuildNodes(datas, cx);
      start == if Lookup(ns, sid).Some? then Lookup(ns, sid) else start0
    ensures Bounded(g, current, start, cx.ref0 + |datas|)
  {
    LoadedNodes(datas, cx);
    LinkedGraph(nodes, links, g);
    if ok {
      LoadedGraph(datas, cx, links);
    }
  }

  /// A node for which no character record is found, an unset character id
  /// among them, makes _load throw as it is written; the corrected factory
  /// builds that node without a character.
  lemma LoadsNeedCharacterAsWritten(datas: seq<DialogNodeData>, cx: LoadContext, links: seq<NodeLinkData>, k: nat)
    requires k < |datas| && CharacterFor(cx.chars, datas[k].characterId) == null
    ensures cx.asWritten ==> !Loads(datas, cx, links)
    ensures !cx.asWritten ==>
      NodeAt(datas, k, cx) == Some(DialogNode(cx.ref0 + k, CopyFor(datas[k], cx.texts), None, ChoiceOptionsOf(cx.ref0 + k, datas[k].ports)))
  {
    NodeForAgree(cx.ref0 + k, CopyFor(datas[k], cx.texts), cx.chars, cx.charTexts);
  }

  /// A graph of one node without a character and no links: as written,
  /// _load throws on it; with the corrected factory it loads.
  lemma CharacterlessNodeLoads(d: DialogNodeData, cx: LoadContext)
    requires !IsSet(d.characterId)
    ensures cx.asWritten ==> !Loads([d], cx, [])
    ensures !cx.asWritten ==> Loads([d], cx, [])
  {
    LoadsNeedCharacterAsWritten([d], cx, [], 0);
    if !cx.asWritten {
      assert Buildable([d], 1, cx);
      var ns := BuildNodes([d], cx);
      forall n | n in ns
        ensures NodeOptions(n, [], ns).Some?
      {
      }
    }
  }

  /// _load: rebuilds the graph from the container, numbering the new nodes
  /// from cx.ref0. ok is false where it throws; the graph then holds the
  /// nodes linked before (none when the first loop threw), and every node
  /// the reader knows was still built before next.
  method LoadGraph(container: DialogGraphContainer, characterLocalisation: LocalisationResource?,
                   ref0: NodeRef, current: Option<DialogNode>, start0: Option<DialogNode>, asWritten: bool,
                   ghost datas: seq<DialogNodeData>, ghost cx: LoadContext)
    returns (ok: bool, g: map<DialogNode, OptionTable>, start: Option<DialogNode>, next: NodeRef)
    requires |datas| == |container.dialogNodeDataList|
    requires forall k :: 0 <= k < |datas| ==> container.dialogNodeDataList[k].data == datas[k]
    requires cx == LoadContext(ref0, TextsOf(container.localisationResource), container.characterList,
                               TextsOf(characterLocalisation), asWritten)
    requires container.localisationResource == null || container.localisationResource != characterLocalisation
    requires (current.Some? ==> current.value.ref < cx.ref0) && (start0.Some? ==> start0.value.ref < cx.ref0)
    modifies container.localisationResource, container.characterList
    ensures Bounded(g, current, start, next) && next >= cx.ref0
    ensures ok <==> Loads(datas, cx, container.nodeLinks)
    ensures ok ==> g == GraphOf(BuildNodes(datas, cx), container.nodeLinks) && Closed(g)
    ensures ok ==> var ns := BuildNodes(datas, cx);
      start == if Lookup(ns, container.startNodeId).Some? then Lookup(ns, container.startNodeId) else start0
    ensures ok && cx.texts.Some? ==> container.localisationResource.texts == Filled(cx.texts.value, datas, |datas|)
    ensures ok ==> forall c :: c in cx.chars ==>
      c.resource == if c in ReferencedUpTo(cx.chars, datas, |datas|) then characterLocalisation else old(c.resource)
  {
    var nodes;
    ok, nodes, next := BuildAll(container, characterLocalisation, ref0, asWritten, datas, cx);
    if !ok {
      NodesUpToBuilds(datas, |datas|, cx);
      return false, map[], start0, next;
    }
    LoadedNodes(datas, cx);
    ok, g, start := LinkNodes(nodes, container.nodeLinks, container.startNodeId, start0);
    LoadedBoth(datas, cx, container.nodeLinks, container.startNodeId, nodes, ok, g, current, start0, start);
  }

  class DialogReader {
    var graph: map<DialogNode, OptionTable>
    var isActive: bool
    var container: DialogGraphContainer?
    var currentNode: Option<DialogNode>
    var startNode: Option<DialogNode>
    /// The events fired so far, oldest first.
    var events: seq<ReaderEvent>
    /// The identity the next node built will have.
    var nextRef: NodeRef

    /// Every node the reader knows was built before nextRef, and each
    /// node's options are its own, each at most once.
    ghost predicate Valid()
      reads this`graph, this`currentNode, this`startNode, this`nextRef
    {
      Bounded(graph, currentNode, startNode, nextRef)
    }

    constructor ()
      ensures graph == map[] && !isActive && container == null && currentNode == None && startNode == None
      ensures events == [] && nextRef == 0 && Valid()
    {
      graph := map[];
      isActive := false;
      container := null;
      currentNode := None;
      startNode := None;
      events := [];
      nextRef := 0;
    }

    /// EndDialog: ends an active dialog and fires OnDialogEnded; does
    /// nothing otherwise.
    method EndDialog()
      modifies this
      ensures !old(isActive) ==> unchanged(this)
      ensures old(isActive) ==> !isActive && events == old(events) + [DialogEnded]
      ensures graph == old(graph) && container == old(container) && currentNode == old(currentNode)
      ensures startNode == old(startNode) && nextRef == old(nextRef)
    {
      if !isActive {
        return;
      }
      isActive := false;
      events := events + [DialogEnded];
    }

    /// _load, on the reader: the graph, the start node and the next
    /// identity become what the two loops leave.
    method Load(characterLocalisation: LocalisationResource?, asWritten: bool, ghost datas: seq<DialogNodeData>, ghost cx: LoadContext)
      returns (ok: bool)
      requires Valid()
      requires container != null && |datas| == |container.dialogNodeDataList|
      requires forall k :: 0 <= k < |datas| ==> container.dialogNodeDataList[k].data == datas[k]
      requires cx == LoadContext(nextRef, TextsOf(container.localisationResource), container.characterList,
                                 TextsOf(characterLocalisation), asWritten)
      requires container.localisationResource == null || container.localisationResource != characterLocalisation
      modifies this`graph, this`startNode, this`nextRef, container.localisationResource, container.characterList
      ensures Valid() && nextRef >= cx.ref0
      ensures ok <==> Loads(datas, cx, container.nodeLinks)
      ensures ok ==> graph == GraphOf(BuildNodes(datas, cx), container.nodeLinks) && Closed(graph)
      ensures ok ==> var ns := BuildNodes(datas, cx);
        startNode == if Lookup(ns, container.startNodeId).Some? then Lookup(ns, container.startNodeId) else old(startNode)
      ensures ok && cx.texts.Some? ==> container.localisationResource.texts == Filled(cx.texts.value, datas, |datas|)
      ensures ok ==> forall c :: c in cx.chars ==>
        c.resource == if c in ReferencedUpTo(cx.chars, datas, |datas|) then characterLocalisation else old(c.resource)
    {
      ok, graph, startNode, nextRef := LoadGraph(container, characterLocalisation, nextRef, currentNode, startNode, asWritten, datas, cx);
    }

    /// BeginDialog as it is written: an active dialog is left alone;
    /// otherwise the container takes the resource found for it, the graph
    /// is loaded with the factory as written, and the dialog starts at the
    /// start node. The current node of an earlier dialog is kept, and it is
    /// not a node of the new graph.
    method BeginDialogAsWritten(c: DialogGraphContainer, localisation: LocalisationResource?,
                                characterLocalisation: LocalisationResource?,
      ghost datas: seq<DialogNodeData>) returns (ok: bool)
      requires Valid() && (localisation == null || localisation != characterLocalisation)
      requires |datas| == |c.dialogNodeDataList| && forall k :: 0 <= k < |datas| ==> c.dialogNodeDataList[k].data == datas[k]
      modifies this, c, localisation, c.characterList
      ensures Valid() && currentNode == old(currentNode)
      ensures c.dialogNodeDataList == old(c.dialogNodeDataList) && c.nodeLinks == old(c.nodeLinks)
      ensures c.characterList == old(c.characterList) && c.startNodeId == old(c.startNodeId)
      ensures old(isActive) ==> ok && isActive && graph == old(graph) && events == old(events) && container == old(container)
      ensures old(isActive) ==> c.localisationResource == old(c.localisationResource)
      ensures !old(isActive) ==> container == c && c.localisationResource == localisation
      ensures !old(isActive) ==>
        var cx := LoadContext(old(nextRef), old(TextsOf(localisation)), c.characterList, TextsOf(characterLocalisation), true);
        (ok <==> Loads(datas, cx, c.nodeLinks)) &&
        (ok ==> isActive && events == old(events) + [DialogStarted(startNode)]) &&
        (ok ==> graph == GraphOf(BuildNodes(datas, cx), c.nodeLinks) && Closed(graph)) &&
        (ok && old(currentNode).Some? ==> old(currentNode).value !in graph) &&
        (!ok ==> !isActive && events == old(events))
    {
      if isActive {
        return true;
      }
      container := c;
      c.localisationResource := localisation;
      ghost var cx := LoadContext(nextRef, TextsOf(localisation), c.characterList, TextsOf(characterLocalisation), true);
      ok := Load(characterLocalisation, true, datas, cx);
      if ok {
        LoadedGraph(datas, cx, c.nodeLinks);
        isActive := true;
        events := events + [DialogStarted(startNode)];
      }
    }

    /// BeginDialog as intended: the graph is loaded with the corrected
    /// factory, so that a node without a character builds, and a new dialog
    /// forgets the current node of the last one, so that its first message
    /// is the start node.
    method BeginDialog(c: DialogGraphContainer, localisation: LocalisationResource?,
                       characterLocalisation: LocalisationResource?,
      ghost datas: seq<DialogNodeData>) returns (ok: bool)
      requires Valid() && (localisation == null || localisation != characterLocalisation)
      requires |datas| == |c.dialogNodeDataList| && forall k :: 0 <= k < |datas| ==> c.dialogNodeDataList[k].data == datas[k]
      modifies this, c, localisation, c.characterList
      ensures Valid()
      ensures c.dialogNodeDataList == old(c.dialogNodeDataList) && c.nodeLinks == old(c.nodeLinks)
      ensures c.characterList == old(c.characterList) && c.startNodeId == old(c.startNodeId)
      ensures old(isActive) ==> ok && isActive && graph == old(graph) && events == old(events) && container == old(container)
      ensures old(isActive) ==> currentNode == old(currentNode) && c.localisationResource == old(c.localisationResource)
      ensures !old(isActive) ==> container == c && c.localisationResource == localisation && currentNode == None
      ensures !old(isActive) ==>
        var cx := LoadContext(old(nextRef), old(TextsOf(localisation)), c.characterList, TextsOf(characterLocalisation), false);
        (ok <==> Loads(datas, cx, c.nodeLinks)) &&
        (ok ==> isActive && events == old(events) + [DialogStarted(startNode)]) &&
        (ok ==> graph == GraphOf(BuildNodes(datas, cx), c.nodeLinks) && Closed(graph)) &&
        (!ok ==> !isActive && events == old(events))
    {
      if isActive {
        return true;
      }
      container := c;
      c.localisationResource := localisation;
      ghost var cx := LoadContext(nextRef, TextsOf(localisation), c.characterList, TextsOf(characterLocalisation), false);
      ok := Load(characterLocalisation, false, datas, cx);
      if ok {
        LoadedGraph(datas, cx, c.nodeLinks);
        isActive := true;
        events := events + [DialogStarted(startNode)];
      }
      currentNode := None;
    }

    /// NextMessage: moves to the start node on the first call, else along
    /// the choice or the first viable option, fires OnNextMessage, and ends
    /// the dialog when the new node has no options or none is viable. ok is
    /// false where it throws: before moving, or after firing OnNextMessage
    /// when the node is missing or not in the graph.
    method NextMessage(choice: Option<DialogChoiceOption>, isTrue: ConditionAnswers) returns (ok: bool)
      requires Valid()
      modifies this
      ensures Valid()
      ensures graph == old(graph) && container == old(container) && startNode == old(startNode) && nextRef == old(nextRef)
      ensures !old(isActive) ==> ok && isActive == old(isActive) && currentNode == old(currentNode) && events == old(events)
      ensures old(isActive) && Moved(old(currentNode), startNode, graph, choice, isTrue).None? ==>
        !ok && isActive && currentNode == old(currentNode) && events == old(events)
      ensures old(isActive) && Moved(old(currentNode), startNode, graph, choice, isTrue).Some? ==>
        var m := Moved(old(currentNode), startNode, graph, choice, isTrue).value;
        currentNode == m && (ok <==> m.Some? && m.value in graph) &&
        (!ok ==> isActive && events == old(events) + [NextMessageShown(m)]) &&
        (ok && Continues(graph, m.value, isTrue) ==> isActive && events == old(events) + [NextMessageShown(m)]) &&
        (ok && !Continues(graph, m.value, isTrue) ==> !isActive && events == old(events) + [NextMessageShown(m)] + [DialogEnded])
    {
      if !isActive {
        return true;
      }
      var mv := Advance(graph, currentNode, startNode, choice, isTrue);
      if mv.None? {
        return false;
      }
      var m := mv.value;
      if currentNode.Some? && m.Some? {
        var i :| 0 <= i < |graph[currentNode.value]| && graph[currentNode.value][i].1 == m.value;
      }
      currentNode := m;
      events := events + [NextMessageShown(m)];
      // Reading the new node's options throws when it is missing or not in
      // the graph.
      ok := m.Some? && m.value in graph;
      if ok && !Continues(graph, m.value, isTrue) {
        EndDialog();
      }
    }
  }
}
