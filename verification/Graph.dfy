/**
 Parameter, Node and Graph of the C++ sample, updated in place.  Every method is proved to take
 the abstract state of Machine.dfy to the state its step prescribes.
 */
module Graphs {
  import opened VxStatus
  import opened Scheduler
  import opened Sequences
  import opened Dataflow
  import opened Machine

  // What a parameter is of: a border mode, a string, or anything else.
  datatype Kind = BorderMode | Text | Ordinary

  class Parameter {
    var valid: bool
    var data: Data

    // Parameters start invalid; border modes and strings mark themselves valid.
    constructor (kind: Kind, data: Data)
      ensures valid <==> kind == BorderMode || kind == Text
      ensures this.data == data
    {
      this.valid, this.data := false, data;
      if kind != Ordinary {
        this.valid := true;
      }
    }

    method SetValid(valid: bool)
      modifies this`valid
      ensures this.valid == valid
    {
      this.valid := valid;
    }

    method MarkValid()
      modifies this`valid
      ensures valid
    {
      valid := true;
    }

    method MarkInvalid()
      modifies this`valid
      ensures !valid
    {
      valid := false;
    }
  }

  lemma {:induction false} ParamsOfLength<P>(ports: seq<Port<P>>, pick: set<Direction>)
    ensures |ParamsOf(ports, pick)| <= |ports|
  {
    if ports != [] {
      ParamsOfLength(ports[..|ports| - 1], pick);
    }
  }

  lemma {:induction false} ParamsOfNext<P>(ports: seq<Port<P>>, pick: set<Direction>, k: nat)
    requires k < |ports|
    ensures ParamsOf(ports[..k + 1], pick) ==
            ParamsOf(ports[..k], pick) + if ports[k].direction in pick then [ports[k].param] else []
  {
    assert ports[..k + 1][..k] == ports[..k];
  }

  lemma {:induction false} ParamsOfNone<P>(ports: seq<Port<P>>, pick: set<Direction>)
    ensures ParamsOf(ports[..0], pick) == []
  {
  }

  class Node {
    const graph: Graph
    // The parameter tables are members of NODE_MAX_PARAMS slots inside the node.
    var params: seq<Parameter?>
    var paramsIn: seq<Parameter?>
    var paramsOut: seq<Parameter?>
    var paramsInCount: nat
    var paramsOutCount: nat
    var dirty: bool
    var scheduled: bool
    var properties: Definition<Parameter>
    // What the derived class's defineNode would report now; its setters change it.
    var definition: Definition<Parameter>

    // The first `count` slots of a table hold ps.
    static ghost predicate Holds(slots: seq<Parameter?>, count: nat, ps: seq<Parameter>) {
      count == |ps| <= |slots| && forall k: nat | k < count :: slots[k] == ps[k]
    }

    ghost predicate Valid()
      reads `properties, `definition, `params, `paramsIn, `paramsOut, `paramsInCount, `paramsOutCount
    {
      && |params| == |paramsIn| == |paramsOut| == NODE_MAX_PARAMS
      && |properties.ports| <= NODE_MAX_PARAMS && |definition.ports| <= NODE_MAX_PARAMS
      && Holds(paramsIn, paramsInCount, InsOf(properties.ports))
      && Holds(paramsOut, paramsOutCount, OutsOf(properties.ports))
      && forall k: nat | k < |properties.ports| :: params[k] == properties.ports[k].param
    }

    ghost function State(): NodeState<Parameter>
      reads `properties, `definition, `dirty
    {
      NodeState(definition, properties, dirty)
    }

    constructor (g: Graph, d: Definition<Parameter>)
      requires |d.ports| <= NODE_MAX_PARAMS
      ensures Valid() && graph == g
      ensures State() == NodeState(d, Definition(VX_SUCCESS, [], []), true)
    {
      graph := g;
      params := seq(NODE_MAX_PARAMS, _ => null);
      paramsIn := seq(NODE_MAX_PARAMS, _ => null);
      paramsOut := seq(NODE_MAX_PARAMS, _ => null);
      paramsInCount, paramsOutCount := 0, 0;
      dirty, scheduled := true, false;
      properties := Definition(VX_SUCCESS, [], []);
      definition := d;
    }

    // The source's constructor: construct the node, then add it to the graph, ignoring the status.
    static method Create(g: Graph, d: Definition<Parameter>) returns (node: Node)
      requires g.Valid() && |d.ports| <= NODE_MAX_PARAMS && PortsIn(d, g.universe)
      modifies g, g.nodeList
      ensures node.Valid() && node.graph == g && g.Valid() && fresh(node)
      ensures node.State() == NodeState(d, Definition(VX_SUCCESS, [], []), true)
      ensures g.nodes == old(g.nodes) + if old(MayAdd(g.State())) then [node] else []
      ensures g.State() == AddState(old(g.State()), node.State())
    {
      node := new Node(g, d);
      hide Node.Valid, Graph.NodesValid, Graph.TableValid, Graph.Valid, States, AddState, MayAdd;
      var _ := g.AddNode(node);
    }

    // Sorts the ports into in-going, out-going and exhaustive lists.
    method SortPorts()
      requires |params| == |paramsIn| == |paramsOut| == NODE_MAX_PARAMS
      requires |properties.ports| <= NODE_MAX_PARAMS
      modifies `params, `paramsIn, `paramsOut, `paramsInCount, `paramsOutCount
      ensures |params| == |paramsIn| == |paramsOut| == NODE_MAX_PARAMS
      ensures Holds(paramsIn, paramsInCount, InsOf(properties.ports))
      ensures Holds(paramsOut, paramsOutCount, OutsOf(properties.ports))
      ensures forall k: nat | k < |properties.ports| :: params[k] == properties.ports[k].param
    {
      hide ParamsOf;
      paramsInCount, paramsOutCount := 0, 0;
      ghost var ports := properties.ports;
      ParamsOfNone(ports, {In});
      ParamsOfNone(ports, {Out});
      for portIndex := 0 to |properties.ports|
        invariant |params| == |paramsIn| == |paramsOut| == NODE_MAX_PARAMS
        invariant paramsInCount <= portIndex && paramsOutCount <= portIndex
        invariant Holds(paramsIn, paramsInCount, InsOf(ports[..portIndex]))
        invariant Holds(paramsOut, paramsOutCount, OutsOf(ports[..portIndex]))
        invariant forall k: nat | k < portIndex :: params[k] == ports[k].param
      {
        ParamsOfNext(ports, {In}, portIndex);
        ParamsOfNext(ports, {Out}, portIndex);
        var port := properties.ports[portIndex];
        if port.direction == In {
          paramsIn := paramsIn[paramsInCount := port.param];
          paramsInCount := paramsInCount + 1;
        } else if port.direction == Out {
          paramsOut := paramsOut[paramsOutCount := port.param];
          paramsOutCount := paramsOutCount + 1;
        }
        params := params[portIndex := port.param];
      }
      assert ports[..|ports|] == ports;
    }

    method Init() returns (ok: bool)
      requires Valid()
      modifies this
      ensures Valid()
      ensures ok == !InitFails(old(State()))
      ensures State() == if ok then Inited(old(State())) else old(State())
      ensures scheduled == old(scheduled)
    {
      if !dirty {
        return true;
      }
      if definition.status != VX_SUCCESS {
        return false;
      }
      properties := definition;
      SortPorts();
      dirty := false;
      return true;
    }

    // Runs the first kernel for the target on the values of the parameters.
    method Execute(target: Target, ghost universe: set<Parameter>) returns (status: Status)
      requires Valid() && PortsIn(properties, universe)
      modifies universe`data
      ensures Reads(CallOn(properties, target), universe)
      ensures var c := CallOn(properties, target); status == c.kernel.status(Read(old(Store(universe)), c.sources))
      ensures Store(universe) == Apply(CallOn(properties, target), old(Store(universe)))
      ensures (forall k <- properties.kernels :: k.target != target) ==>
                status == VX_ERROR_INVALID_NODE && Store(universe) == old(Store(universe))
      ensures forall i: nat | i < |properties.kernels| && properties.kernels[i].target == target &&
                              (forall j | 0 <= j < i :: properties.kernels[j].target != target) ::
                (forall p <- SourcesOf(properties.ports) :: p in universe) &&
                status == properties.kernels[i].kernel.status(Read(old(Store(universe)), SourcesOf(properties.ports)))
    {
      CallReads(properties, target, universe);
      for i := 0 to |properties.kernels|
        invariant forall k | 0 <= k < i :: properties.kernels[k].target != target
        invariant Store(universe) == old(Store(universe))
      {
        if properties.kernels[i].target == target {
          FirstKernelAt(properties.kernels, target, i);
          status := RunKernel(properties.kernels[i].kernel, universe);
          return;
        }
      }
      return VX_ERROR_INVALID_NODE;
    }

    method RunKernel(kernel: Kernel<Data>, ghost universe: set<Parameter>) returns (status: Status)
      requires Valid() && PortsIn(properties, universe)
      requires Reads(Call(SourcesOf(properties.ports), OutsOf(properties.ports), kernel), universe)
      modifies universe`data
      ensures var c := Call(SourcesOf(properties.ports), OutsOf(properties.ports), kernel);
              && status == kernel.status(Read(old(Store(universe)), c.sources))
              && Store(universe) == Apply(c, old(Store(universe)))
    {
      var args := Arguments(universe);
      status := kernel.status(args);
      WriteOutputs(kernel, args, OutsOf(properties.ports), universe);
    }

    // The kernel's outputs, in port order.
    method WriteOutputs(kernel: Kernel<Data>, args: seq<Data>, ghost outs: seq<Parameter>,
                        ghost universe: set<Parameter>)
      requires Holds(paramsOut, paramsOutCount, outs) && forall p <- outs :: p in universe
      modifies universe`data
      ensures Store(universe) == old(Store(universe)) + Written(outs, kernel, args, |outs|)
    {
      hide Written;
      WrittenNone(old(Store(universe)), outs, kernel, args);
      for k := 0 to paramsOutCount
        invariant Store(universe) == old(Store(universe)) + Written(outs, kernel, args, k)
      {
        var param := paramsOut[k];
        assert param == outs[k] && outs[k] in outs;
        WrittenNext(old(Store(universe)), outs, kernel, args, k);
        ghost var before := Store(universe);
        param.data := kernel.value(args, k);
        assert Store(universe) == before[param := kernel.value(args, k)];
      }
    }

    // The values on the ports that are not outputs.
    method Arguments(ghost universe: set<Parameter>) returns (args: seq<Data>)
      requires Valid() && PortsIn(properties, universe)
      requires forall p <- SourcesOf(properties.ports) :: p in universe
      ensures args == Read(Store(universe), SourcesOf(properties.ports))
    {
      hide ParamsOf;
      args := [];
      ghost var ports := properties.ports;
      ghost var pick: set<Direction> := {In, NonFlowing, Unknown};
      ParamsOfNone(ports, pick);
      for portIndex := 0 to |properties.ports|
        invariant |args| == |ParamsOf(ports[..portIndex], pick)|
        invariant forall k: nat | k < |args| :: args[k] == ParamsOf<Parameter>(ports[..portIndex], pick)[k].data
      {
        ParamsOfNext(ports, pick, portIndex);
        if properties.ports[portIndex].direction != Out {
          var param := params[portIndex];
          args := args + [param.data];
        }
      }
      assert ports[..|ports|] == ports;
      assert forall k: nat | k < |args| :: SourcesOf(ports)[k] in SourcesOf(ports);
    }

    // A derived node's setter.
    method SetDefinition(d: Definition<Parameter>)
      requires Valid() && |d.ports| <= NODE_MAX_PARAMS
      modifies `definition, `dirty, graph`verified
      ensures Valid()
      ensures State() == NodeState(d, old(properties), true) && !graph.verified
      ensures old(graph.Valid()) && PortsIn(d, graph.universe) ==> graph.Valid() && graph.nodes == old(graph.nodes)
      ensures old(graph.Valid()) ==>
                forall i: nat | i < |graph.nodes| && graph.nodes[i] == this ::
                  graph.State() == SetState(old(graph.State()), i, d)
      ensures old(graph.Valid()) && this !in graph.nodes ==> graph.State() == old(graph.State()).(verified := false)
    {
      hide Graph.TableValid, Graph.ValidParams, Node.Valid, PortsIn, States;
      ghost var before, entry := States(graph.nodes), graph.nodes;
      Redefine(d);
      SetDirty();
      if i: nat :| i < |entry| && entry[i] == this && old(graph.Valid()) {
        StatesAre(entry, before[i := State()]);
      }
      if this !in entry {
        StatesAre(entry, before);
      }
    }

    method Redefine(d: Definition<Parameter>)
      requires Valid() && |d.ports| <= NODE_MAX_PARAMS
      modifies `definition
      ensures Valid() && definition == d
    {
      definition := d;
    }

    method SetDirty()
      modifies `dirty, graph`verified
      ensures dirty && !graph.verified
    {
      dirty := true;
      graph.SetDirty();
    }
  }

  // The values of the parameters.
  ghost function Store(universe: set<Parameter>): (s: map<Parameter, Data>)
    reads universe`data
    ensures s.Keys == universe
  {
    map p | p in universe :: p.data
  }

  ghost predicate Reads(c: Call<Parameter, Data>, universe: set<Parameter>) {
    (forall p <- c.sources :: p in universe) && (forall p <- c.outs :: p in universe)
  }

  lemma {:induction false} CallReads(d: Definition<Parameter>, target: Target, universe: set<Parameter>)
    requires PortsIn(d, universe)
    ensures Reads(CallOn(d, target), universe)
    ensures forall p <- SourcesOf(d.ports) :: p in universe
    ensures forall p <- OutsOf(d.ports) :: p in universe
  {
    ParamsAreIn(d.ports, {In, NonFlowing, Unknown}, universe);
    ParamsAreIn(d.ports, {Out}, universe);
  }

  lemma {:induction false} FirstKernelAt(kernels: seq<Slot>, target: Target, i: nat)
    requires i < |kernels| && kernels[i].target == target
    requires forall k | 0 <= k < i :: kernels[k].target != target
    ensures HasKernel(kernels, target) && FirstKernel(kernels, target) == kernels[i].kernel
  {
    if i > 0 {
      assert kernels[0].target != target;
      FirstKernelAt(kernels[1..], target, i - 1);
    }
  }

  ghost predicate PortsIn(d: Definition<Parameter>, universe: set<Parameter>) {
    forall port <- d.ports :: port.param in universe
  }

  ghost function States(nodes: seq<Node>): (r: seq<NodeState<Parameter>>)
    reads nodes`definition, nodes`properties, nodes`dirty
    ensures |r| == |nodes|
    ensures forall i: nat | i < |nodes| :: r[i] == nodes[i].State()
  {
    if nodes == [] then []
    else States(nodes[..|nodes| - 1]) + [nodes[|nodes| - 1].State()]
  }

  lemma {:induction false} StatesAre(nodes: seq<Node>, r: seq<NodeState<Parameter>>)
    requires |r| == |nodes| && forall i: nat | i < |nodes| :: nodes[i].State() == r[i]
    ensures States(nodes) == r
  {
  }

  class Graph {
    var verified: bool
    var epochCount: nat
    var nodeCount: nat
    const nodeList: array<Node?>
    const runList: array2<Node?>
    const runLength: array<nat>

    // The parameters the nodes of this graph may mention.
    ghost const universe: set<Parameter>
    ghost var nodes: seq<Node>
    ghost var table: seq<seq<nat>>

    ghost predicate NodeValid(n: Node)
      reads n`properties, n`definition, n`params, n`paramsIn, n`paramsOut, n`paramsInCount, n`paramsOutCount
    {
      n.Valid() && n.graph == this && PortsIn(n.properties, universe) && PortsIn(n.definition, universe)
    }

    // The node list holds `nodes`, each once.
    ghost predicate Listed()
      reads `nodes, `nodeCount, nodeList
    {
      && nodeList.Length == GRAPH_MAX_NODES && nodeCount == |nodes| <= GRAPH_MAX_NODES
      && (forall i: nat | i < nodeCount :: nodeList[i] == nodes[i])
      && (forall i: nat, j: nat | i < j < |nodes| :: nodes[i] != nodes[j])
    }

    ghost predicate NodesValid()
      reads `nodes, `nodeCount, nodeList, nodes`properties, nodes`definition
      reads nodes`params, nodes`paramsIn, nodes`paramsOut, nodes`paramsInCount, nodes`paramsOutCount
    {
      Listed() && forall i: nat | i < |nodes| :: NodeValid(nodes[i])
    }

    ghost predicate TableValid()
      reads `table, `nodes, runList, runLength
    {
      && runList.Length0 == GRAPH_MAX_EPOCHS && runList.Length1 == GRAPH_MAX_NODES_PER_EPOCH
      && runLength.Length == GRAPH_MAX_EPOCHS == |table|
      && (forall e: nat | e < GRAPH_MAX_EPOCHS :: runLength[e] == |table[e]| <= GRAPH_MAX_NODES_PER_EPOCH)
      && (forall e: nat, k: nat | e < GRAPH_MAX_EPOCHS && k < |table[e]| ::
            table[e][k] < |nodes| && runList[e, k] == nodes[table[e][k]])
    }

    ghost predicate Valid()
      reads this, nodeList, nodes, runList, runLength
    {
      NodesValid() && TableValid() && epochCount <= GRAPH_MAX_EPOCHS
    }

    ghost function ValidParams(): set<Parameter>
      reads universe`valid
    {
      set p | p in universe && p.valid
    }

    ghost function State(): GraphState<Parameter>
      reads this, nodes, universe
    {
      GraphState(States(nodes), ValidParams(), verified, table, epochCount)
    }

    constructor (ghost parameters: set<Parameter>)
      ensures Valid() && fresh(nodeList) && fresh(runList) && fresh(runLength)
      ensures universe == parameters && nodes == []
      ensures State() == Fresh(ValidParams())
    {
      verified, epochCount, nodeCount := false, 0, 0;
      nodeList := new Node?[GRAPH_MAX_NODES](_ => null);
      runList := new Node?[GRAPH_MAX_EPOCHS, GRAPH_MAX_NODES_PER_EPOCH]((_, _) => null);
      runLength := new nat[GRAPH_MAX_EPOCHS](_ => 0);
      universe := parameters;
      nodes := [];
      table := Padded([]);
    }

    // A node that is not on the list, with ports among the graph's parameters.
    ghost predicate Addable(node: Node)
      reads this, node
    {
      NodeValid(node) && node !in nodes
    }

    method Append(node: Node)
      requires Valid() && Addable(node) && nodeCount < GRAPH_MAX_NODES
      modifies `nodeCount, `nodes, nodeList
      ensures Valid() && nodes == old(nodes) + [node]
    {
      nodeList[nodeCount] := node;
      nodeCount := nodeCount + 1;
      nodes := nodes + [node];
    }

    method AddNode(node: Node) returns (status: Status)
      requires Valid() && Addable(node)
      modifies this, nodeList
      ensures Valid()
      ensures status == if old(MayAdd(State())) then VX_SUCCESS else VX_ERROR_NO_RESOURCES
      ensures status == VX_SUCCESS <==> !old(verified) && |old(nodes)| < 100
      ensures nodes == old(nodes) + if old(MayAdd(State())) then [node] else []
      ensures State() == AddState(old(State()), node.State())
    {
      if verified {
        return VX_ERROR_NO_RESOURCES;
      }
      if nodeCount < GRAPH_MAX_NODES {
        Append(node);
        assert nodes[..|nodes| - 1] == old(nodes);
        return VX_SUCCESS;
      } else {
        return VX_ERROR_NO_RESOURCES;
      }
    }

    method SetDirty()
      modifies `verified
      ensures !verified
    {
      verified := false;
    }

    // Runs through the nodes and inits them, stopping at the first failure.
    method InitNodes(ghost before: seq<NodeState<Parameter>>) returns (ok: bool)
      requires NodesValid() && before == States(nodes)
      modifies nodes
      ensures NodesValid()
      ensures FirstBad(before) <= |before| == |nodes| && ok == (FirstBad(before) == |nodes|)
      ensures States(nodes) == InitUpTo(before, FirstBad(before))
    {
      hide Node.Valid, PortsIn, Inited, InitFails, States;
      for nodeIndex := 0 to nodeCount
        invariant NodesValid()
        invariant nodeIndex <= FirstBad(before)
        invariant forall i: nat | i < nodeCount :: nodes[i].State() == InitUpTo(before, nodeIndex)[i]
      {
        assert nodes[nodeIndex] in nodes;
        var success := InitNode(nodeIndex);
        FirstBadAt(before, nodeIndex);
        if !success {
          StatesAre(nodes, InitUpTo(before, nodeIndex));
          return false;
        }
      }
      StatesAre(nodes, InitUpTo(before, nodeCount));
      return true;
    }

    method InitNode(nodeIndex: nat) returns (ok: bool)
      requires NodesValid() && nodeIndex < nodeCount
      modifies nodes[nodeIndex]
      ensures NodesValid()
      ensures ok == !InitFails(old(nodes[nodeIndex].State()))
      ensures nodes[nodeIndex].State() ==
              if ok then Inited(old(nodes[nodeIndex].State())) else old(nodes[nodeIndex].State())
      ensures forall i: nat | i < |nodes| && i != nodeIndex :: nodes[i].State() == old(nodes[i].State())
    {
      ok := nodeList[nodeIndex].Init();
    }

    method ClearScheduled()
      requires Listed()
      modifies nodes`scheduled
      ensures forall n <- nodes :: !n.scheduled
    {
      for nodeIndex := 0 to nodeCount
        invariant forall i: nat | i < nodeIndex :: !nodes[i].scheduled
      {
        var node := nodeList[nodeIndex];
        node.scheduled := false;
      }
    }

    // The node's In and Out tables hold the parameters of the task.
    ghost predicate TaskIs(n: Node, t: Task<Parameter>)
      reads n`paramsIn, n`paramsOut, n`paramsInCount, n`paramsOutCount
    {
      && Node.Holds(n.paramsIn, n.paramsInCount, t.ins) && Node.Holds(n.paramsOut, n.paramsOutCount, t.outs)
      && (forall p <- t.ins :: p in universe) && (forall p <- t.outs :: p in universe)
    }

    ghost predicate TasksAre(ts: seq<Task<Parameter>>)
      reads `nodes, nodes`paramsIn, nodes`paramsOut, nodes`paramsInCount, nodes`paramsOutCount
    {
      |ts| == |nodes| && forall i: nat | i < |nodes| :: TaskIs(nodes[i], ts[i])
    }

    lemma {:induction false} TasksOfNodes()
      requires NodesValid()
      ensures TasksAre(Tasks(States(nodes)))
    {
      forall i: nat | i < |nodes| ensures TaskIs(nodes[i], Tasks(States(nodes))[i]) {
        assert NodeValid(nodes[i]);
        ParamsAreIn(nodes[i].properties.ports, {In}, universe);
        ParamsAreIn(nodes[i].properties.ports, {Out}, universe);
      }
    }

    // The scheduled flags of the nodes from `lo` to below `hi` are given by `done`.
    ghost predicate FlagsAre(done: set<nat>, lo: nat, hi: nat)
      reads `nodes, nodes`scheduled
    {
      forall i: nat | lo <= i < hi && i < |nodes| :: nodes[i].scheduled <==> i in done
    }

    lemma {:induction false} NoFlags(done: set<nat>)
      ensures FlagsAre(done, 0, 0)
    {
    }

    method InputsValid(node: Node, ghost t: Task<Parameter>) returns (runnable: bool)
      requires TaskIs(node, t)
      ensures runnable == Runnable(t, ValidParams())
    {
      runnable := true;
      for paramIndex := 0 to node.paramsInCount
        invariant runnable == forall k | 0 <= k < paramIndex :: t.ins[k].valid
      {
        var param := node.paramsIn[paramIndex];
        runnable := runnable && param.valid;
      }
      assert forall k | 0 <= k < |t.ins| :: t.ins[k] in t.ins;
    }

    // Finds all nodes whose inputs are available and schedules them for this epoch.
    method ScanEpoch(epoch: nat, ghost ts: seq<Task<Parameter>>, ghost s: Progress<Parameter>, ghost goal: set<nat>)
      returns (placed: nat)
      requires Listed() && TableValid() && |table| == GRAPH_MAX_EPOCHS
      requires TasksAre(ts) && FlagsAre(s.done, 0, |nodes|) && ValidParams() == s.valid
      requires epoch < GRAPH_MAX_EPOCHS && table[epoch] == []
      requires |Ready(ts, s, |ts|)| <= GRAPH_MAX_NODES_PER_EPOCH
      requires Goal(ts, s, goal)
      modifies `table, runList, runLength, nodes`scheduled
      ensures TableValid() && table == old(table)[epoch := Ready(ts, s, |ts|)] && placed == |table[epoch]|
      ensures FlagsAre(goal, 0, |nodes|)
    {
      hide Goal, TaskIs, Ready, Placeable, TableValid, FlagsAre;
      NoFlags(goal);
      placed := 0;
      ReadyNone(ts, s);
      for nodeIndex := 0 to nodeCount
        invariant TableValid() && |table| == GRAPH_MAX_EPOCHS
        invariant FlagsAre(goal, 0, nodeIndex) && FlagsAre(s.done, nodeIndex, nodeCount)
        invariant table == old(table)[epoch := Ready(ts, s, nodeIndex)] && placed == |table[epoch]|
      {
        ReadyGrows(ts, s, nodeIndex + 1, |ts|);
        ReadyNext(ts, s, nodeIndex);
        var here := ScanNext(epoch, nodeIndex, ts, s, goal);
        placed := if here then placed + 1 else placed;
      }
    }

    // One round of the scan.
    method ScanNext(epoch: nat, nodeIndex: nat, ghost ts: seq<Task<Parameter>>, ghost s: Progress<Parameter>,
                    ghost goal: set<nat>)
      returns (placed: bool)
      requires Listed() && TableValid() && TasksAre(ts) && ValidParams() == s.valid && nodeIndex < nodeCount
      requires FlagsAre(goal, 0, nodeIndex) && FlagsAre(s.done, nodeIndex, nodeCount)
      requires epoch < GRAPH_MAX_EPOCHS && |table| == GRAPH_MAX_EPOCHS && table[epoch] == Ready(ts, s, nodeIndex)
      requires |Ready(ts, s, nodeIndex + 1)| <= GRAPH_MAX_NODES_PER_EPOCH
      requires Goal(ts, s, goal)
      modifies `table, runList, runLength, nodes`scheduled
      ensures TableValid() && table == old(table)[epoch := Ready(ts, s, nodeIndex + 1)]
      ensures |table[epoch]| == |old(table)[epoch]| + if placed then 1 else 0
      ensures FlagsAre(goal, 0, nodeIndex + 1) && FlagsAre(s.done, nodeIndex + 1, nodeCount)
    {
      hide Goal, TaskIs, Ready, TableValid;
      placed := ScanNode(epoch, nodeList[nodeIndex], nodeIndex, ts, s, goal);
    }

    method ScanNode(epoch: nat, node: Node, ghost i: nat, ghost ts: seq<Task<Parameter>>, ghost s: Progress<Parameter>,
                    ghost goal: set<nat>)
      returns (placed: bool)
      requires i < |nodes| && nodes[i] == node && (node.scheduled <==> i in s.done)
      requires i < |ts| && TaskIs(node, ts[i]) && ValidParams() == s.valid && Goal(ts, s, goal)
      requires TableValid() && epoch < GRAPH_MAX_EPOCHS && table[epoch] == Ready(ts, s, i)
      requires |Ready(ts, s, i + 1)| <= GRAPH_MAX_NODES_PER_EPOCH
      modifies `table, runList, runLength, node`scheduled
      ensures TableValid() && table == old(table)[epoch := Ready(ts, s, i + 1)]
      ensures |table[epoch]| == |old(table)[epoch]| + if placed then 1 else 0
      ensures node.scheduled <==> i in goal
    {
      ReadyNext(ts, s, i);
      if !node.scheduled {
        var runnable := InputsValid(node, ts[i]);
        if runnable {
          Place(epoch, node, i);
          return true;
        }
      }
      assert table[epoch := table[epoch]] == table;
      return false;
    }

    method Place(epoch: nat, node: Node, ghost i: nat)
      requires TableValid() && i < |nodes| && nodes[i] == node
      requires epoch < GRAPH_MAX_EPOCHS && |table[epoch]| < GRAPH_MAX_NODES_PER_EPOCH
      modifies `table, runList, runLength, node`scheduled
      ensures TableValid() && table == old(table)[epoch := old(table)[epoch] + [i]]
      ensures node.scheduled
    {
      runList[epoch, runLength[epoch]] := node;
      runLength[epoch] := runLength[epoch] + 1;
      node.scheduled := true;
      table := table[epoch := table[epoch] + [i]];
    }

    // Tags the outputs of one node as available.
    method MarkNode(node: Node, ghost t: Task<Parameter>)
      requires TaskIs(node, t)
      modifies universe`valid
      ensures ValidParams() == old(ValidParams()) + Elems(t.outs)
    {
      for paramIndex := 0 to node.paramsOutCount
        invariant ValidParams() == old(ValidParams()) + Elems(t.outs[..paramIndex])
      {
        var param := node.paramsOut[paramIndex];
        assert param == t.outs[paramIndex] && t.outs[paramIndex] in t.outs;
        ghost var before := ValidParams();
        param.MarkValid();
        assert ValidParams() == before + {param};
        assert t.outs[..paramIndex + 1] == t.outs[..paramIndex] + [param];
      }
      assert t.outs[..|t.outs|] == t.outs;
    }

    // Tags the outputs of the node in one slot of the run list as available.
    method MarkSlot(epoch: nat, nodeIndex: nat, ghost ts: seq<Task<Parameter>>)
      requires TableValid() && TasksAre(ts) && epoch < GRAPH_MAX_EPOCHS && nodeIndex < |table[epoch]|
      modifies universe`valid
      ensures table[epoch][nodeIndex] < |ts|
      ensures ValidParams() == old(ValidParams()) + Elems(ts[table[epoch][nodeIndex]].outs)
    {
      hide TaskIs;
      var node := runList[epoch, nodeIndex];
      MarkNode(node, ts[table[epoch][nodeIndex]]);
    }

    // Tags all parameters produced by the nodes of this epoch as available.
    method MarkEpoch(epoch: nat, ghost ts: seq<Task<Parameter>>, ghost s: Progress<Parameter>)
      requires Listed() && TableValid() && TasksAre(ts) && ValidParams() == s.valid
      requires epoch < GRAPH_MAX_EPOCHS && table[epoch] == Ready(ts, s, |ts|)
      modifies universe`valid
      ensures ValidParams() == Step(ts, s).valid
    {
      hide TaskIs, Ready, Step, OutsOfRow;
      ghost var row := table[epoch];
      OutsOfNone(ts, row);
      for nodeIndex := 0 to runLength[epoch]
        invariant ValidParams() == s.valid + OutsOfRow(ts, row[..nodeIndex])
      {
        MarkSlot(epoch, nodeIndex, ts);
        OutsOfNext(ts, row, nodeIndex);
      }
      assert row[..|row|] == row;
      ReadyOuts(ts, s);
    }

    // The memset of the run lengths.
    method ClearRunLengths()
      requires TableValid()
      modifies `table, runLength
      ensures TableValid() && table == Padded([])
    {
      for epoch := 0 to GRAPH_MAX_EPOCHS
        invariant forall e: nat | e < epoch :: runLength[e] == 0
      {
        runLength[epoch] := 0;
      }
      table := Padded([]);
    }

    // Where the loop stands: the rows so far, the flags and the valid parameters of state s.
    ghost predicate At(rows: seq<seq<nat>>, s: Progress<Parameter>)
      reads `table, `nodes, runList, runLength, nodes`scheduled, universe`valid
    {
      && TableValid() && |rows| <= GRAPH_MAX_EPOCHS && table == Padded(rows)
      && FlagsAre(s.done, 0, |nodes|) && ValidParams() == s.valid
    }

    // One turn of the loop: the scan, and unless it found nothing the marking.
    method Turn(epoch: nat, ghost rows: seq<seq<nat>>, ghost ts: seq<Task<Parameter>>, ghost s: Progress<Parameter>)
      returns (placed: nat)
      requires Listed() && TasksAre(ts) && At(rows, s) && epoch == |rows| < GRAPH_MAX_EPOCHS
      requires |Ready(ts, s, |ts|)| <= GRAPH_MAX_NODES_PER_EPOCH
      modifies `table, runList, runLength, nodes`scheduled, universe`valid
      ensures At(rows + [Ready(ts, s, |ts|)], Step(ts, s)) && placed == |Ready(ts, s, |ts|)|
      ensures Ready(ts, s, |ts|) == [] ==> At(rows, Step(ts, s))
      ensures epoch < runLength.Length && runLength[epoch] == placed
    {
      hide TaskIs, Step;
      TurnCounts(ts, s);
      placed := ScanEpoch(epoch, ts, s, Step(ts, s).done);
      if runLength[epoch] != 0 {
        MarkEpoch(epoch, ts, s);
      } else {
        ReadyOuts(ts, s);
      }
      assert table == Padded(rows + [Ready(ts, s, |ts|)]);
    }

    // Generates the run list: a list of lists of all nodes that can be run at each epoch.
    method BuildRunList(ghost ts: seq<Task<Parameter>>, ghost entry: set<Parameter>) returns (status: Status)
      requires Listed() && TasksAre(ts) && nodeCount == |ts| && At([], Progress({}, entry))
      requires forall row <- Schedule(ts, entry, GRAPH_MAX_EPOCHS).rows :: |row| <= GRAPH_MAX_NODES_PER_EPOCH
      modifies `table, `epochCount, `verified, runList, runLength, nodes`scheduled, universe`valid
      ensures var plan := Schedule(ts, entry, GRAPH_MAX_EPOCHS);
              && At(plan.rows, After(ts, Progress({}, entry), |plan.rows|))
              && status == (if plan.verdict == Scheduled then VX_SUCCESS else VX_ERROR_INVALID_GRAPH)
              && verified == (plan.verdict == Scheduled || old(verified))
              && epochCount == if plan.verdict == Scheduled then |plan.rows| else old(epochCount)
    {
      hide Listed, TasksAre, At, Step, Ready, OnPlan, Schedule, After;
      var epoch, nodesScheduled := 0, 0;
      ghost var s := Progress({}, entry);
      ghost var plan := Schedule(ts, entry, GRAPH_MAX_EPOCHS);
      assert plan.rows[..0] == [];
      OnPlanStarts(ts, entry);
      while nodesScheduled < nodeCount
        invariant OnPlan(ts, entry, epoch, s) && epoch <= |plan.rows| && nodesScheduled == |s.done|
        invariant At(plan.rows[..epoch], s) && verified == old(verified) && epochCount == old(epochCount)
        decreases nodeCount - nodesScheduled
      {
        DoneCounts(ts, entry, epoch, s);
        OnPlanEnds(ts, entry, epoch, s);
        if epoch == GRAPH_MAX_EPOCHS {
          return VX_ERROR_INVALID_GRAPH;
        }
        OnPlanTurns(ts, entry, epoch, s);
        var placed := Turn(epoch, plan.rows[..epoch], ts, s);
        nodesScheduled := nodesScheduled + placed;
        if runLength[epoch] == 0 {
          return VX_ERROR_INVALID_GRAPH;
        }
        s := Step(ts, s);
        epoch := epoch + 1;
      }
      DoneCounts(ts, entry, epoch, s);
      OnPlanEnds(ts, entry, epoch, s);
      epochCount := epoch;
      verified := true;
      return VX_SUCCESS;
    }

    // Marks all nodes as unscheduled and empties the run list.
    method ResetSchedule()
      requires Listed() && TableValid()
      modifies `table, runLength, nodes`scheduled
      ensures At([], Progress({}, ValidParams()))
    {
      ClearScheduled();
      ClearRunLengths();
    }

    // What verify does once all nodes are initialized.
    method ScheduleNodes(ghost ts: seq<Task<Parameter>>, ghost entry: set<Parameter>) returns (status: Status)
      requires Listed() && TableValid() && TasksAre(ts) && nodeCount == |ts| && ValidParams() == entry
      requires forall row <- Schedule(ts, entry, GRAPH_MAX_EPOCHS).rows :: |row| <= GRAPH_MAX_NODES_PER_EPOCH
      modifies `table, `epochCount, `verified, runList, runLength, nodes`scheduled, universe`valid
      ensures var plan := Schedule(ts, entry, GRAPH_MAX_EPOCHS);
              && At(plan.rows, After(ts, Progress({}, entry), |plan.rows|))
              && status == (if plan.verdict == Scheduled then VX_SUCCESS else VX_ERROR_INVALID_GRAPH)
              && verified == (plan.verdict == Scheduled || old(verified))
              && epochCount == if plan.verdict == Scheduled then |plan.rows| else old(epochCount)
    {
      hide Schedule, After, At, TaskIs;
      ResetSchedule();
      status := BuildRunList(ts, entry);
    }

    // Scheduling leaves the nodes' definitions and ports alone.
    method ScheduleInited(ghost inited: seq<NodeState<Parameter>>, ghost entry: set<Parameter>) returns (status: Status)
      requires NodesValid() && TableValid() && States(nodes) == inited && ValidParams() == entry
      requires forall row <- Schedule(Tasks(inited), entry, GRAPH_MAX_EPOCHS).rows :: |row| <= GRAPH_MAX_NODES_PER_EPOCH
      modifies `table, `epochCount, `verified, runList, runLength, nodes`scheduled, universe`valid
      ensures NodesValid() && States(nodes) == inited
      ensures var plan := Schedule(Tasks(inited), entry, GRAPH_MAX_EPOCHS);
              && At(plan.rows, After(Tasks(inited), Progress({}, entry), |plan.rows|))
              && status == (if plan.verdict == Scheduled then VX_SUCCESS else VX_ERROR_INVALID_GRAPH)
              && verified == (plan.verdict == Scheduled || old(verified))
              && epochCount == if plan.verdict == Scheduled then |plan.rows| else old(epochCount)
    {
      hide Schedule, After, At, TaskIs, NodeValid, States, Tasks;
      TasksOfNodes();
      status := ScheduleNodes(Tasks(inited), entry);
    }

    method Verify() returns (status: Status)
      requires Valid() && RowsFit(State())
      modifies this, runList, runLength, nodes, universe`valid
      ensures Valid() && nodes == old(nodes)
      ensures State() == VerifyState(old(State()))
      ensures status == VerifyStatus(old(State()))
    {
      hide RowsFit, VerifyState, VerifyStatus, Schedule, After, NodesValid, FlagsAre, TableValid, ValidParams,
           States, InitUpTo, Tasks, FirstBad;
      ghost var g := State();
      VerifySteps(g);
      var ok := InitNodes(g.nodes);
      if !ok {
        return VX_ERROR_INVALID_NODE;
      }
      status := ScheduleInited(States(nodes), g.valid);
    }

    // What processing this graph will do.
    ghost function Expected(): Outcome<Parameter, Data>
      requires Valid()
      reads this, nodeList, nodes, runList, runLength, universe
    {
      ProcessDefined();
      ProcessOutcome(State(), Store(universe))
    }

    lemma {:induction false} ProcessDefined()
      requires Valid()
      ensures InRange(RunList(State()), |nodes|) && Closed(Calls(States(nodes)), Store(universe))
    {
      RowsDefined();
      CallsDefined();
    }

    lemma {:induction false} CallsDefined()
      requires NodesValid()
      ensures Closed(Calls(States(nodes)), Store(universe))
    {
      forall i: nat | i < |nodes| ensures Reads(CallOf(nodes[i].properties), universe) {
        assert NodeValid(nodes[i]);
        CallReads(nodes[i].properties, CPU, universe);
      }
    }

    lemma {:induction false} RowsDefined()
      requires TableValid() && epochCount <= GRAPH_MAX_EPOCHS
      ensures InRange(Flatten(table[..epochCount]), |nodes|)
    {
      var rows := table[..epochCount];
      var order := Flatten(rows);
      forall k | 0 <= k < |order| ensures order[k] < |nodes| {
        InFlatten<nat>(rows, order[k]);
        assert order[k] in order;
        var e: nat :| e < |rows| && order[k] in rows[e];
        var j :| 0 <= j < |rows[e]| && rows[e][j] == order[k];
        assert table[e][j] < |nodes|;
      }
    }

    method Process() returns (status: Status)
      requires Valid()
      modifies universe`data
      ensures Valid() && State() == old(State())
      ensures Outcome(status, Store(universe)) == old(Expected())
      ensures !old(verified) ==> status == VX_ERROR_INVALID_GRAPH && Store(universe) == old(Store(universe))
    {
      if !verified {
        return VX_ERROR_INVALID_GRAPH;
      }
      ProcessDefined();
      status := RunAll(Calls(States(nodes)), Store(universe), table[..epochCount]);
    }

    // The calls are those of the nodes' current ports and kernels.
    ghost predicate CallsAre(cs: seq<Call<Parameter, Data>>)
      reads `nodes, nodes`properties
    {
      |cs| == |nodes| && forall i: nat | i < |nodes| :: cs[i] == CallOf(nodes[i].properties)
    }

    // Iterates through the run list, executing each node.
    method RunAll(ghost cs: seq<Call<Parameter, Data>>, ghost s: map<Parameter, Data>, ghost rows: seq<seq<nat>>)
      returns (status: Status)
      requires NodesValid() && TableValid() && epochCount <= GRAPH_MAX_EPOCHS && rows == table[..epochCount]
      requires CallsAre(cs) && Closed(cs, s) && InRange(Flatten(rows), |cs|) && s == Store(universe)
      modifies universe`data
      ensures Outcome(status, Store(universe)) == Dataflow.Process(cs, Flatten(rows), s)
    {
      hide Flatten, Dataflow.Process, NodeValid, Closed, CallsAre;
      ProcessNothing(cs, s);
      for epoch := 0 to epochCount
        invariant InRange(Flatten(rows[..epoch]), |cs|)
        invariant Dataflow.Process(cs, Flatten(rows[..epoch]), s) == Outcome(VX_SUCCESS, Store(universe))
      {
        FlattenNext(rows, epoch);
        FlattenPrefix(rows, epoch + 1);
        status := ProcessEpoch(epoch, cs, s, Flatten(rows[..epoch]));
        if status != VX_SUCCESS {
          ghost var so := Flatten(rows[..epoch + 1]);
          assert Flatten(rows)[..|so|] == so;
          ProcessStops(cs, Flatten(rows), s, |so|);
          return;
        }
      }
      assert rows[..epochCount] == rows;
      return VX_SUCCESS;
    }

    // The nodes of one epoch, up to the first that fails.
    method ProcessEpoch(epoch: nat, ghost cs: seq<Call<Parameter, Data>>, ghost s: map<Parameter, Data>,
                        ghost before: seq<nat>)
      returns (status: Status)
      requires NodesValid() && TableValid() && epoch < GRAPH_MAX_EPOCHS
      requires CallsAre(cs) && Closed(cs, s) && InRange(before, |cs|)
      requires Dataflow.Process(cs, before, s) == Outcome(VX_SUCCESS, Store(universe))
      modifies universe`data
      ensures InRange(before + table[epoch], |cs|)
      ensures Dataflow.Process(cs, before + table[epoch], s) == Outcome(status, Store(universe))
    {
      hide Flatten, Dataflow.Process, Closed, CallOf;
      ghost var row := table[epoch];
      assert before + row[..0] == before;
      for nodeIndex := 0 to runLength[epoch]
        invariant InRange(before + row[..nodeIndex], |cs|)
        invariant Dataflow.Process(cs, before + row[..nodeIndex], s) == Outcome(VX_SUCCESS, Store(universe))
      {
        var node := runList[epoch, nodeIndex];
        status := RunNode(node, row[nodeIndex], cs, s, before + row[..nodeIndex]);
        assert before + row[..nodeIndex + 1] == before + row[..nodeIndex] + [row[nodeIndex]];
        if status != VX_SUCCESS {
          assert (before + row)[..|before| + nodeIndex + 1] == before + row[..nodeIndex + 1];
          ProcessStops(cs, before + row, s, |before| + nodeIndex + 1);
          return;
        }
      }
      assert row[..|row|] == row;
      return VX_SUCCESS;
    }

    method RunNode(node: Node, ghost i: nat, ghost cs: seq<Call<Parameter, Data>>, ghost s: map<Parameter, Data>,
                   ghost before: seq<nat>)
      returns (status: Status)
      requires NodeValid(node) && i < |cs| && cs[i] == CallOf(node.properties)
      requires Closed(cs, s) && InRange(before, |cs|)
      requires Dataflow.Process(cs, before, s) == Outcome(VX_SUCCESS, Store(universe))
      modifies universe`data
      ensures InRange(before + [i], |cs|)
      ensures Dataflow.Process(cs, before + [i], s) == Outcome(status, Store(universe))
    {
      ProcessNext(cs, before, s, i);
      status := node.Execute(CPU, universe);
    }
  }

  // The step of verify, phase by phase.
  lemma {:induction false} VerifySteps<P>(g: GraphState<P>)
    requires RowsFit(g)
    ensures var f := FirstBad(g.nodes);
            var nodes := InitUpTo(g.nodes, f);
            if f < |g.nodes| then VerifyStatus(g) == VX_ERROR_INVALID_NODE && VerifyState(g) == g.(nodes := nodes)
            else
              var plan := Schedule(Tasks(nodes), g.valid, GRAPH_MAX_EPOCHS);
              && |plan.rows| <= GRAPH_MAX_EPOCHS
              && (forall row <- plan.rows :: |row| <= GRAPH_MAX_NODES_PER_EPOCH)
              && VerifyStatus(g) == (if plan.verdict == Scheduled then VX_SUCCESS else VX_ERROR_INVALID_GRAPH)
              && VerifyState(g) ==
                 GraphState(nodes, After(Tasks(nodes), Progress({}, g.valid), |plan.rows|).valid,
                            plan.verdict == Scheduled || g.verified, Padded(plan.rows),
                            if plan.verdict == Scheduled then |plan.rows| else g.epochs)
  {
    hide After;
  }

  // The loop is in state s after e turns, and what is left of the plan is what it will do.
  ghost predicate OnPlan<P>(ts: seq<Task<P>>, entry: set<P>, e: nat, s: Progress<P>) {
    var plan := Schedule(ts, entry, GRAPH_MAX_EPOCHS);
    && e <= |plan.rows| <= GRAPH_MAX_EPOCHS
    && s == After(ts, Progress({}, entry), e)
    && Layers(ts, s, GRAPH_MAX_EPOCHS - e) == Plan(plan.rows[e..], plan.verdict)
  }

  lemma {:induction false} OnPlanStarts<P>(ts: seq<Task<P>>, entry: set<P>)
    ensures OnPlan(ts, entry, 0, Progress({}, entry))
  {
  }

  lemma {:induction false} OnPlanTurns<P>(ts: seq<Task<P>>, entry: set<P>, e: nat, s: Progress<P>)
    requires OnPlan(ts, entry, e, s) && e < GRAPH_MAX_EPOCHS && !AllDone(|ts|, s.done)
    ensures var plan, row := Schedule(ts, entry, GRAPH_MAX_EPOCHS), Ready(ts, s, |ts|);
            && |Step(ts, s).done| == |s.done| + |row|
            && e <= |plan.rows| <= GRAPH_MAX_EPOCHS
            && if row == [] then
                 && plan.verdict == Stuck && |plan.rows| == e && plan.rows[..e] == plan.rows
                 && s == After(ts, Progress({}, entry), e) == Step(ts, s)
                 && Padded(plan.rows + [row]) == Padded(plan.rows)
               else
                 && e < |plan.rows| && plan.rows[e] == row && plan.rows[..e] + [row] == plan.rows[..e + 1]
                 && OnPlan(ts, entry, e + 1, Step(ts, s))
  {
    TurnCounts(ts, s);
    TurnRow(ts, s, GRAPH_MAX_EPOCHS - e, Schedule(ts, entry, GRAPH_MAX_EPOCHS).rows, e);
  }

  lemma {:induction false} OnPlanEnds<P>(ts: seq<Task<P>>, entry: set<P>, e: nat, s: Progress<P>)
    requires OnPlan(ts, entry, e, s)
    ensures var plan := Schedule(ts, entry, GRAPH_MAX_EPOCHS);
            AllDone(|ts|, s.done) || e == GRAPH_MAX_EPOCHS ==>
              && |plan.rows| == e && plan.rows[..e] == plan.rows
              && s == After(ts, Progress({}, entry), e)
              && (plan.verdict == Scheduled <==> AllDone(|ts|, s.done))
  {
  }

  // The count of placed nodes decides whether all are placed.
  lemma {:induction false} DoneCounts<P>(ts: seq<Task<P>>, entry: set<P>, e: nat, s: Progress<P>)
    requires OnPlan(ts, entry, e, s)
    ensures |s.done| <= |ts|
    ensures |s.done| == |ts| <==> AllDone(|ts|, s.done)
  {
    hide Step, Layers;
    var all := UpTo(|ts|);
    forall i | i in s.done ensures i in all {
      var d := DoneWasPlaced(ts, entry, e, i);
    }
    Subset(s.done, all);
    assert AllDone(|ts|, s.done) ==> all <= s.done && s.done == all;
  }

  ghost function UpTo(n: nat): (r: set<nat>)
    ensures forall i: nat :: i in r <==> i < n
    ensures |r| == n
  {
    if n == 0 then {} else UpTo(n - 1) + {n - 1}
  }

  lemma {:induction false} Subset<T>(a: set<T>, b: set<T>)
    requires a <= b
    ensures |a| <= |b|
    ensures |a| == |b| ==> a == b
    decreases b
  {
    if x :| x in a {
      Subset(a - {x}, b - {x});
      assert a == a - {x} + {x} && b == b - {x} + {x};
    } else {
      assert a == {};
    }
  }

  // A turn places as many tasks as its row holds.
  lemma {:induction false} TurnCounts<P>(ts: seq<Task<P>>, s: Progress<P>)
    ensures |Step(ts, s).done| == |s.done| + |Ready(ts, s, |ts|)|
    ensures Goal(ts, s, Step(ts, s).done)
  {
    var row := Ready(ts, s, |ts|);
    InReady(ts, s, |ts|);
    DistinctElems(row);
    assert Step(ts, s).done == s.done + Elems(row);
    assert s.done !! Elems(row);
  }

  // What a turn does to the rest of the plan.
  lemma {:induction false} TurnRow<P>(ts: seq<Task<P>>, s: Progress<P>, left: nat, rows: seq<seq<nat>>, e: nat)
    requires left > 0 && !AllDone(|ts|, s.done) && e <= |rows|
    requires e + left <= GRAPH_MAX_EPOCHS && rows[e..] == Layers(ts, s, left).rows
    ensures var row := Ready(ts, s, |ts|);
            if row == [] then
              && Layers(ts, s, left).verdict == Stuck && Step(ts, s) == s
              && rows[..e] == rows && Padded(rows + [row]) == Padded(rows)
            else
              && e < |rows| && rows[e] == row && rows[..e] + [row] == rows[..e + 1]
              && Layers(ts, Step(ts, s), left - 1) == Plan(rows[e + 1..], Layers(ts, s, left).verdict)
  {
    var row := Ready(ts, s, |ts|);
    if row != [] {
      assert rows[e..][0] == rows[e];
      assert rows[e + 1..] == rows[e..][1..];
    } else {
      StuckTurn(ts, s);
    }
  }

  lemma {:induction false} StuckTurn<P>(ts: seq<Task<P>>, s: Progress<P>)
    requires Ready(ts, s, |ts|) == []
    ensures Step(ts, s) == s
  {
    InReady(ts, s, |ts|);
  }

  // What will be placed after this turn.
  ghost predicate Goal<P>(ts: seq<Task<P>>, s: Progress<P>, goal: set<nat>) {
    forall i: nat | i < |ts| :: i in goal <==> i in s.done || Placeable(ts, s, i)
  }

  ghost function OutsOfRow<P>(ts: seq<Task<P>>, row: seq<nat>): set<P> {
    set i: nat, p | i in row && i < |ts| && p in ts[i].outs :: p
  }

  lemma {:induction false} OutsOfNone<P>(ts: seq<Task<P>>, row: seq<nat>)
    ensures OutsOfRow(ts, row[..0]) == {}
  {
  }

  lemma {:induction false} OutsOfNext<P>(ts: seq<Task<P>>, row: seq<nat>, k: nat)
    requires k < |row| && row[k] < |ts|
    ensures OutsOfRow(ts, row[..k + 1]) == OutsOfRow(ts, row[..k]) + Elems(ts[row[k]].outs)
  {
    assert row[..k + 1] == row[..k] + [row[k]];
  }

  lemma {:induction false} ReadyOuts<P>(ts: seq<Task<P>>, s: Progress<P>)
    ensures s.valid + OutsOfRow(ts, Ready(ts, s, |ts|)) == Step(ts, s).valid
  {
    InReady(ts, s, |ts|);
  }

  lemma {:induction false} ReadyNone<P>(ts: seq<Task<P>>, s: Progress<P>)
    ensures Ready(ts, s, 0) == []
  {
  }

  lemma {:induction false} ReadyNext<P>(ts: seq<Task<P>>, s: Progress<P>, i: nat)
    ensures Ready(ts, s, i + 1) == if Placeable(ts, s, i) then Ready(ts, s, i) + [i] else Ready(ts, s, i)
  {
  }

  lemma {:induction false} ReadyGrows<P>(ts: seq<Task<P>>, s: Progress<P>, m: nat, n: nat)
    requires m <= n
    ensures |Ready(ts, s, m)| <= |Ready(ts, s, n)|
    decreases n
  {
    if m < n {
      ReadyGrows(ts, s, m, n - 1);
    }
  }

  lemma {:induction false} ParamsAreIn(ports: seq<Port<Parameter>>, pick: set<Direction>, universe: set<Parameter>)
    requires forall port <- ports :: port.param in universe
    ensures forall p <- ParamsOf(ports, pick) :: p in universe
  {
    if ports != [] {
      ParamsAreIn(ports[..|ports| - 1], pick, universe);
    }
  }

  lemma {:induction false} FirstBadAt<P>(nodes: seq<NodeState<P>>, i: nat)
    requires i < |nodes| && i <= FirstBad(nodes)
    ensures InitFails(nodes[i]) <==> FirstBad(nodes) == i
  {
  }
}
