/** The mind-map entities as the editor's code uses them (a node, a directed connection, the map). */
module MindMapTypes {
  import opened Wrappers

  /** A node on the canvas. `kind` is the source's `type` key into the node-type registry;
      `children` is absent on every node the editor itself creates. */
  datatype Node = Node(
    id: string,
    kind: string,
    name: string,
    properties: map<string, string>,
    x: real,
    y: real,
    children: Option<seq<string>>)

  /** A directed edge between two node ids. */
  datatype Connection = Connection(id: string, from: string, to: string)

  /** The editor state: free-form properties, nodes in display order, connections. */
  datatype MindMap = MindMap(properties: map<string, string>, nodes: seq<Node>, connections: seq<Connection>)

  /** A map as it arrives from storage or an import, where `connections` may be missing. */
  datatype MindMapPayload = MindMapPayload(
    properties: map<string, string>,
    nodes: seq<Node>,
    connections: Option<seq<Connection>>)
}
