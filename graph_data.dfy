/**
 * The graph document the editor hands to the exporter: the `cells` array of an X6 graph,
 * and the player document the exporter synthesizes from it.
 */
module GraphData {
  import opened Wrappers

  /** One end of an edge cell: `{cell: id}`. */
  datatype Endpoint = Endpoint(cell: string)

  /** The `data` object of a node cell; the player reads its `type` and `text` fields. */
  datatype CellData = CellData(kind: Option<string>, text: Option<string>)

  /**
   * A cell of the graph. Node cells have shape "rect" or "html"; edge cells have shape
   * "edge" and, normally, a source and a target endpoint.
   */
  datatype Cell = Cell(
    id: string,
    shape: string,
    data: Option<CellData>,
    source: Option<Endpoint>,
    target: Option<Endpoint>)

  /**
   * The synthesized `index.html`: the graph, the node-to-video-path mapping and the
   * node-to-creation-time mapping, embedded verbatim for the client-side player.
   */
  datatype PlayerDocument = PlayerDocument(
    graph: seq<Cell>,
    videoMapping: map<string, string>,
    creationTimes: map<string, string>)
}
