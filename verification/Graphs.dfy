/** Pipeline graphs: edges between nodes, which are known by their ids (app/pipelines/definition.py). */
module Graphs {
  import opened Wrappers

  datatype Edge = Edge(id: string, source: string, target: string, sourcePort: Option<string>, targetPort: Option<string>)

  /** The connection an edge makes, whatever its id. */
  datatype Connection = Connection(source: string, target: string, sourcePort: Option<string>, targetPort: Option<string>)

  function ConnectionOf(e: Edge): Connection {
    Connection(e.source, e.target, e.sourcePort, e.targetPort)
  }

  /** Which node feeds which, along edges whose source is a declared node. */
  function Links(nodes: seq<string>, edges: seq<Edge>): set<(string, string)> {
    set e | e in edges && e.source in nodes :: (e.source, e.target)
  }
}
