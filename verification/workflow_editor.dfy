/** The editor's graph state machine: the initial map, the action type and the reducer. */
module WorkflowEditor {
  import opened Wrappers
  import opened Sequences
  import opened MindMapTypes

  /** The map the editor starts with: one topic node called "Main Topic", no connections. */
  function DefaultMindMap(): (m: MindMap)
    ensures |m.nodes| == 1 && m.nodes[0].id == "root" && m.connections == []
  {
    MindMap(map[], [Node("root", "topic", "Main Topic", map["description" := "Click to edit"], 400.0, 100.0, None)], [])
  }

  /** A `Partial<Node>`: each present field overrides the node's field of the same name. */
  datatype NodeUpdate = NodeUpdate(
    id: Option<string>,
    kind: Option<string>,
    name: Option<string>,
    properties: Option<map<string, string>>,
    x: Option<real>,
    y: Option<real>,
    children: Option<seq<string>>)

  datatype Action =
    | SetMindMap(payload: MindMapPayload)
    | AddNode(node: Node)
    | UpdateNode(nodeId: string, updates: NodeUpdate)
    | DeleteNode(nodeId: string)
    | AddConnection(sourceId: string, targetId: string)
    | RemoveConnection(connectionId: string)
    | MoveNode(nodeId: string, x: real, y: real)

  /** The object spread `{ ...node, ...updates }`. */
  function Merge(n: Node, u: NodeUpdate): (r: Node)
    ensures (r.id == n.id || u.id == Some(r.id)) && (r.kind == n.kind || u.kind == Some(r.kind))
    ensures (r.name == n.name || u.name == Some(r.name)) && (r.properties == n.properties || u.properties == Some(r.properties))
    ensures (r.x == n.x || u.x == Some(r.x)) && (r.y == n.y || u.y == Some(r.y))
    ensures r.children == n.children || r.children == u.children
    ensures u == NodeUpdate(None, None, None, None, None, None, None) ==> r == n
  {
    Node(
      u.id.GetOr(n.id),
      u.kind.GetOr(n.kind),
      u.name.GetOr(n.name),
      u.properties.GetOr(n.properties),
      u.x.GetOr(n.x),
      u.y.GetOr(n.y),
      if u.children.Some? then u.children else n.children)
  }

  /** Decimal digits of a natural number, as JavaScript prints an integral timestamp. */
  function Decimal(n: nat): (r: string)
    ensures |r| >= 1 && forall i :: 0 <= i < |r| ==> '0' <= r[i] <= '9'
    ensures (n < 10) == (|r| == 1)
  {
    if n < 10 then [Digit(n)] else Decimal(n / 10) + [Digit(n % 10)]
  }

  function Digit(d: nat): (c: char)
    requires d < 10
    ensures '0' <= c <= '9' && c as int - '0' as int == d
  {
    ('0' as int + d) as char
  }

  /** The id the reducer gives a new connection, with the clock reading passed in. */
  function ConnectionId(now: nat): (r: string)
    ensures |r| > 5 && r[..5] == "conn-"
    ensures forall i :: 5 <= i < |r| ==> '0' <= r[i] <= '9'
  {
    "conn-" + Decimal(now)
  }

  /** Two different clock readings never give the same connection id. */
  lemma {:induction false} DecimalInjective(a: nat, b: nat)
    requires Decimal(a) == Decimal(b)
    ensures a == b
  {
    if a >= 10 && b >= 10 {
      var da, db := Decimal(a), Decimal(b);
      assert da[..|da| - 1] == Decimal(a / 10) && db[..|db| - 1] == Decimal(b / 10);
      DecimalInjective(a / 10, b / 10);
      assert Digit(a % 10) == da[|da| - 1] == db[|db| - 1] == Digit(b % 10);
    } else if a < 10 && b < 10 {
      assert Digit(a) == Decimal(a)[0];
    }
  }

  lemma ConnectionIdInjective(t1: nat, t2: nat)
    requires t1 != t2
    ensures ConnectionId(t1) != ConnectionId(t2)
  {
    if ConnectionId(t1) == ConnectionId(t2) {
      assert Decimal(t1) == ConnectionId(t1)[5..];
      DecimalInjective(t1, t2);
    }
  }

  /** `connections.some(c => c.from === from && c.to === to)`, scanning from the front. */
  function HasPair(cs: seq<Connection>, from: string, to: string): (r: bool)
    ensures r <==> exists i :: 0 <= i < |cs| && cs[i].from == from && cs[i].to == to
  {
    if cs == [] then false
    else if cs[0].from == from && cs[0].to == to then true
    else
      var rest := HasPair(cs[1..], from, to);
      assert forall i :: 1 <= i < |cs| ==> cs[i] == cs[1..][i - 1];
      rest
  }

  /** The reducer. `now` stands for the `Date.now()` reading used to name a new connection. */
  function Reduce(state: MindMap, action: Action, now: nat): (r: MindMap)
    ensures !action.SetMindMap? ==> r.properties == state.properties
    ensures action.AddNode? || action.UpdateNode? || action.MoveNode? ==> r.connections == state.connections
    ensures action.AddConnection? || action.RemoveConnection? ==> r.nodes == state.nodes
  {
    match action
    case SetMindMap(p) =>
      MindMap(p.properties, p.nodes, p.connections.GetOr([]))
    case AddNode(n) =>
      state.(nodes := state.nodes + [n])
    case UpdateNode(nodeId, u) =>
      state.(nodes := seq(|state.nodes|, i requires 0 <= i < |state.nodes| =>
        if state.nodes[i].id == nodeId then Merge(state.nodes[i], u) else state.nodes[i]))
    case DeleteNode(nodeId) =>
      state.(nodes := Filter(state.nodes, (n: Node) => n.id != nodeId),
             connections := Filter(state.connections, (c: Connection) => c.from != nodeId && c.to != nodeId))
    case AddConnection(sourceId, targetId) =>
      if sourceId == targetId || HasPair(state.connections, sourceId, targetId) then state
      else state.(connections := state.connections + [Connection(ConnectionId(now), sourceId, targetId)])
    case RemoveConnection(connectionId) =>
      state.(connections := Filter(state.connections, (c: Connection) => c.id != connectionId))
    case MoveNode(nodeId, x, y) =>
      state.(nodes := seq(|state.nodes|, i requires 0 <= i < |state.nodes| =>
        if state.nodes[i].id == nodeId then state.nodes[i].(x := x, y := y) else state.nodes[i]))
  }

  // ---------------------------------------------------------------- per-action effects

  /** SET_MIND_MAP takes the payload wholesale; a missing connection list becomes empty. */
  lemma SetMindMapReplaces(state: MindMap, p: MindMapPayload, now: nat)
    ensures Reduce(state, SetMindMap(p), now).nodes == p.nodes
    ensures Reduce(state, SetMindMap(p), now).properties == p.properties
    ensures p.connections.None? ==> Reduce(state, SetMindMap(p), now).connections == []
    ensures p.connections.Some? ==> Reduce(state, SetMindMap(p), now).connections == p.connections.value
  {
  }

  /** ADD_NODE puts the node last and leaves every earlier node and every connection alone. */
  lemma AddNodeAppends(state: MindMap, n: Node, now: nat)
    ensures var r := Reduce(state, AddNode(n), now);
      |r.nodes| == |state.nodes| + 1 && r.nodes[|state.nodes|] == n
      && r.nodes[..|state.nodes|] == state.nodes && r.connections == state.connections
  {
    var r := Reduce(state, AddNode(n), now);
    assert r.nodes[..|state.nodes|] == state.nodes;
  }

  /** A field of a merged node comes from the update when the update has it, else from the node. */
  lemma MergeOverridesPresentFields(n: Node, u: NodeUpdate)
    ensures var m := Merge(n, u);
      && (m.id == if u.id.Some? then u.id.value else n.id)
      && (m.kind == if u.kind.Some? then u.kind.value else n.kind)
      && (m.name == if u.name.Some? then u.name.value else n.name)
      && (m.properties == if u.properties.Some? then u.properties.value else n.properties)
      && (m.x == if u.x.Some? then u.x.value else n.x)
      && (m.y == if u.y.Some? then u.y.value else n.y)
      && (m.children == if u.children.Some? then u.children else n.children)
  {
  }

  /** Applying the same update twice is applying it once. */
  lemma MergeIdempotent(n: Node, u: NodeUpdate)
    ensures Merge(Merge(n, u), u) == Merge(n, u)
  {
  }

  /** An update with no field present changes nothing. */
  lemma EmptyUpdateIsIdentity(state: MindMap, nodeId: string, now: nat)
    ensures Reduce(state, UpdateNode(nodeId, NodeUpdate(None, None, None, None, None, None, None)), now) == state
  {
    var r := Reduce(state, UpdateNode(nodeId, NodeUpdate(None, None, None, None, None, None, None)), now);
    assert r.nodes == state.nodes;
  }

  /** UPDATE_NODE keeps the count and order of nodes; exactly the nodes with id `nodeId` are merged. */
  lemma UpdateNodeMergesMatching(state: MindMap, nodeId: string, u: NodeUpdate, now: nat)
    ensures var r := Reduce(state, UpdateNode(nodeId, u), now);
      && |r.nodes| == |state.nodes|
      && r.connections == state.connections
      && (forall i :: 0 <= i < |state.nodes| && state.nodes[i].id == nodeId ==> r.nodes[i] == Merge(state.nodes[i], u))
      && (forall i :: 0 <= i < |state.nodes| && state.nodes[i].id != nodeId ==> r.nodes[i] == state.nodes[i])
  {
  }

  /** MOVE_NODE keeps the count and order of nodes and changes only `x` and `y` of the matching ones. */
  lemma MoveNodeMovesMatching(state: MindMap, nodeId: string, x: real, y: real, now: nat)
    ensures var r := Reduce(state, MoveNode(nodeId, x, y), now);
      && |r.nodes| == |state.nodes|
      && r.connections == state.connections
      && (forall i :: 0 <= i < |state.nodes| ==>
            var (a, b) := (state.nodes[i], r.nodes[i]);
            b.id == a.id && b.kind == a.kind && b.name == a.name && b.properties == a.properties
            && b.children == a.children
            && (if a.id == nodeId then b.x == x && b.y == y else b == a))
  {
  }

  /** DELETE_NODE removes the node and every connection touching it, and nothing else;
      the survivors keep their relative order and multiplicity. */
  lemma DeleteNodeRemovesIncident(state: MindMap, nodeId: string, now: nat)
    ensures var r := Reduce(state, DeleteNode(nodeId), now);
      && (forall i :: 0 <= i < |r.nodes| ==> r.nodes[i].id != nodeId)
      && (forall i :: 0 <= i < |r.connections| ==> r.connections[i].from != nodeId && r.connections[i].to != nodeId)
      && (forall n: Node :: n.id != nodeId ==> multiset(r.nodes)[n] == multiset(state.nodes)[n])
      && (forall c: Connection :: c.from != nodeId && c.to != nodeId ==> multiset(r.connections)[c] == multiset(state.connections)[c])
      && IsSubsequence(r.nodes, state.nodes)
      && IsSubsequence(r.connections, state.connections)
  {
    var r := Reduce(state, DeleteNode(nodeId), now);
    DeleteNodeNodes(state.nodes, nodeId, r.nodes);
    DeleteNodeConnections(state.connections, nodeId, r.connections);
  }

  lemma DeleteNodeNodes(nodes: seq<Node>, nodeId: string, kept: seq<Node>)
    requires kept == Filter(nodes, (n: Node) => n.id != nodeId)
    ensures forall i :: 0 <= i < |kept| ==> kept[i].id != nodeId
    ensures forall n: Node :: n.id != nodeId ==> multiset(kept)[n] == multiset(nodes)[n]
    ensures IsSubsequence(kept, nodes)
  {
    FilterKeepsOrderAndCopies(nodes, (n: Node) => n.id != nodeId);
  }

  lemma DeleteNodeConnections(cs: seq<Connection>, nodeId: string, kept: seq<Connection>)
    requires kept == Filter(cs, (c: Connection) => c.from != nodeId && c.to != nodeId)
    ensures forall i :: 0 <= i < |kept| ==> kept[i].from != nodeId && kept[i].to != nodeId
    ensures forall c: Connection :: c.from != nodeId && c.to != nodeId ==> multiset(kept)[c] == multiset(cs)[c]
    ensures IsSubsequence(kept, cs)
  {
    FilterKeepsOrderAndCopies(cs, (c: Connection) => c.from != nodeId && c.to != nodeId);
  }

  /** Some node has the id. */
  ghost predicate Named(nodes: seq<Node>, id: string)
  {
    exists i :: 0 <= i < |nodes| && nodes[i].id == id
  }

  /** Every connection names nodes that exist. */
  ghost predicate EndpointsResolve(m: MindMap)
  {
    forall k :: 0 <= k < |m.connections| ==> Named(m.nodes, m.connections[k].from) && Named(m.nodes, m.connections[k].to)
  }

  /** A node the filter keeps still lends its id to the filtered list. */
  lemma FilterKeepsName(nodes: seq<Node>, keep: Node -> bool, i: nat)
    requires i < |nodes| && keep(nodes[i])
    ensures Named(Filter(nodes, keep), nodes[i].id)
  {
    var kept := Filter(nodes, keep);
    assert nodes[i] in kept;
    var m :| 0 <= m < |kept| && kept[m] == nodes[i];
  }

  /** Deleting a node never leaves a connection pointing at a missing node. */
  lemma DeleteNodeKeepsEndpointsResolved(state: MindMap, nodeId: string, now: nat)
    requires EndpointsResolve(state)
    ensures EndpointsResolve(Reduce(state, DeleteNode(nodeId), now))
  {
    var keepNode := (n: Node) => n.id != nodeId;
    var keepConn := (c: Connection) => c.from != nodeId && c.to != nodeId;
    var r := Reduce(state, DeleteNode(nodeId), now);
    assert r.nodes == Filter(state.nodes, keepNode) && r.connections == Filter(state.connections, keepConn);
    forall k | 0 <= k < |r.connections|
      ensures Named(r.nodes, r.connections[k].from) && Named(r.nodes, r.connections[k].to)
    {
      var c := r.connections[k];
      assert c in state.connections && keepConn(c);
      var kk :| 0 <= kk < |state.connections| && state.connections[kk] == c;
      var i :| 0 <= i < |state.nodes| && state.nodes[i].id == c.from;
      var j :| 0 <= j < |state.nodes| && state.nodes[j].id == c.to;
      FilterKeepsName(state.nodes, keepNode, i);
      FilterKeepsName(state.nodes, keepNode, j);
    }
  }

  /** ADD_CONNECTION ignores a self-loop and a pair that is already connected. */
  lemma AddConnectionRejects(state: MindMap, sourceId: string, targetId: string, now: nat)
    requires sourceId == targetId || HasPair(state.connections, sourceId, targetId)
    ensures Reduce(state, AddConnection(sourceId, targetId), now) == state
  {
  }

  /** Otherwise ADD_CONNECTION appends exactly one connection from `sourceId` to `targetId`. */
  lemma AddConnectionAppends(state: MindMap, sourceId: string, targetId: string, now: nat)
    requires sourceId != targetId && !HasPair(state.connections, sourceId, targetId)
    ensures var r := Reduce(state, AddConnection(sourceId, targetId), now);
      && r.nodes == state.nodes
      && |r.connections| == |state.connections| + 1
      && r.connections[..|state.connections|] == state.connections
      && r.connections[|state.connections|] == Connection(ConnectionId(now), sourceId, targetId)
  {
    var r := Reduce(state, AddConnection(sourceId, targetId), now);
    assert r.connections[..|state.connections|] == state.connections;
  }

  /** Repeating an ADD_CONNECTION, at any later time, changes nothing. */
  lemma {:induction false} AddConnectionIdempotent(state: MindMap, sourceId: string, targetId: string, t1: nat, t2: nat)
    ensures var once := Reduce(state, AddConnection(sourceId, targetId), t1);
      Reduce(once, AddConnection(sourceId, targetId), t2) == once
  {
    var once := Reduce(state, AddConnection(sourceId, targetId), t1);
    if sourceId != targetId && !HasPair(state.connections, sourceId, targetId) {
      var k := |state.connections|;
      assert once.connections[k].from == sourceId && once.connections[k].to == targetId;
      assert HasPair(once.connections, sourceId, targetId);
    }
  }

  /** REMOVE_CONNECTION removes exactly the connections carrying that id, keeping the rest in order. */
  lemma RemoveConnectionRemovesId(state: MindMap, connectionId: string, now: nat)
    ensures var r := Reduce(state, RemoveConnection(connectionId), now);
      && r.nodes == state.nodes
      && (forall i :: 0 <= i < |r.connections| ==> r.connections[i].id != connectionId)
      && (forall c: Connection :: c.id != connectionId ==> multiset(r.connections)[c] == multiset(state.connections)[c])
      && IsSubsequence(r.connections, state.connections)
  {
    FilterKeepsOrderAndCopies(state.connections, (c: Connection) => c.id != connectionId);
  }

  // ---------------------------------------------------------------- the connection invariant

  /** No connection is a self-loop and no (from, to) pair occurs twice. */
  predicate ConnectionsValid(cs: seq<Connection>)
  {
    && (forall i :: 0 <= i < |cs| ==> cs[i].from != cs[i].to)
    && (forall i, j :: 0 <= i < j < |cs| ==> cs[i].from != cs[j].from || cs[i].to != cs[j].to)
  }

  /** Dropping the first connection keeps the list valid. */
  lemma ValidTail(cs: seq<Connection>)
    requires cs != [] && ConnectionsValid(cs)
    ensures ConnectionsValid(cs[1..])
  {
    forall i, j | 0 <= i < j < |cs[1..]|
      ensures cs[1..][i].from != cs[1..][j].from || cs[1..][i].to != cs[1..][j].to
    {
      assert cs[1..][i] == cs[i + 1] && cs[1..][j] == cs[j + 1];
    }
  }

  /** A connection that is no self-loop and repeats no pair of a valid list can go in front of it. */
  lemma ValidCons(c: Connection, t: seq<Connection>)
    requires ConnectionsValid(t) && c.from != c.to
    requires forall j :: 0 <= j < |t| ==> c.from != t[j].from || c.to != t[j].to
    ensures ConnectionsValid([c] + t)
  {
    var r := [c] + t;
    forall i, j | 0 <= i < j < |r| ensures r[i].from != r[j].from || r[i].to != r[j].to {
      if i > 0 {
        assert r[i] == t[i - 1] && r[j] == t[j - 1];
      } else {
        assert r[j] == t[j - 1];
      }
    }
  }

  /** Any filter of valid connections is valid. */
  lemma {:induction false} FilterKeepsValid(cs: seq<Connection>, keep: Connection -> bool)
    requires ConnectionsValid(cs)
    ensures ConnectionsValid(Filter(cs, keep))
  {
    if cs != [] {
      ValidTail(cs);
      FilterKeepsValid(cs[1..], keep);
      if keep(cs[0]) {
        var t := Filter(cs[1..], keep);
        assert Filter(cs, keep) == [cs[0]] + t;
        forall j | 0 <= j < |t| ensures cs[0].from != t[j].from || cs[0].to != t[j].to {
          var m :| 0 <= m < |cs[1..]| && cs[1..][m] == t[j];
          assert cs[m + 1] == t[j];
        }
        ValidCons(cs[0], t);
      }
    }
  }

  /** Every action except SET_MIND_MAP keeps the connections free of self-loops and duplicate pairs. */
  lemma {:induction false} ReducePreservesValidConnections(state: MindMap, action: Action, now: nat)
    requires ConnectionsValid(state.connections) && !action.SetMindMap?
    ensures ConnectionsValid(Reduce(state, action, now).connections)
  {
    match action
    case DeleteNode(nodeId) =>
      FilterKeepsValid(state.connections, (c: Connection) => c.from != nodeId && c.to != nodeId);
    case RemoveConnection(connectionId) =>
      FilterKeepsValid(state.connections, (c: Connection) => c.id != connectionId);
    case AddConnection(sourceId, targetId) =>
      if sourceId != targetId && !HasPair(state.connections, sourceId, targetId) {
        var cs := Reduce(state, action, now).connections;
        var k := |state.connections|;
        forall i, j | 0 <= i < j < |cs| ensures cs[i].from != cs[j].from || cs[i].to != cs[j].to {
          if j == k {
            assert cs[i] == state.connections[i];
          } else {
            assert cs[i] == state.connections[i] && cs[j] == state.connections[j];
          }
        }
      }
    case _ =>
  }
}
