/** The pose-graph store the optimizer inherits: vertices keyed by id and
    edges between them, each edge tagged with its kind. */
module PoseGraph {
  import opened Poses

  /** Vertex ids: 64-bit unsigned in the source, unbounded here;
      `Sessions.Valid` keeps the id counter at or below `MaxVertexId`. */
  type VertexId = nat

  /** The largest 64-bit unsigned integer; the id counter must never reach past it. */
  const MaxVertexId: nat := 0xFFFF_FFFF_FFFF_FFFF

  /** A GICP registration configuration; its contents are not inspected here. */
  type GicpConfig(==, !new)

  /** A graph vertex: its current pose estimate and whether the solver must keep it fixed. */
  datatype Vertex = Vertex(estimate: Pose, fixed: bool)

  /** The two edge kinds this optimizer creates. */
  datatype EdgeTag = Odometry | Gicp

  /** An edge is identified by its endpoints and its kind. */
  datatype Edge = Edge(source: VertexId, target: VertexId, tag: EdgeTag)

  /** The configuration a GICP edge carries: whatever a newly built edge starts
      with, or one pushed to it by a configuration update. */
  datatype GicpSetting = EdgeDefault | Configured(config: GicpConfig)

  /** What an edge holds besides its endpoints: an odometry edge its measured
      relative motion, a GICP edge its registration configuration. */
  datatype EdgeData = OdometryData(measurement: Pose) | GicpData(setting: GicpSetting)

  datatype Graph = Graph(vertices: map<VertexId, Vertex>, edges: map<Edge, EdgeData>)

  /** The data an edge holds is of the kind its tag names. */
  predicate TagMatches(e: Edge, d: EdgeData) {
    (e.tag == Odometry) == d.OdometryData?
  }

  /** The data of an edge after a new GICP configuration is pushed to every
      GICP edge; odometry edges are left alone. */
  function Reconfigured(d: EdgeData, config: GicpConfig): (r: EdgeData)
    ensures r.OdometryData? == d.OdometryData?
    ensures d.OdometryData? ==> r == d
    ensures d.GicpData? ==> r.setting == Configured(config)
  {
    if d.GicpData? then GicpData(Configured(config)) else d
  }

  /** The estimates after a run of the nonlinear solver, which proposes a new
      estimate for some vertices: a fixed vertex never moves, a vertex the
      solver says nothing about keeps its estimate. */
  function SolverEstimates(vertices: map<VertexId, Vertex>, solution: map<VertexId, Pose>): (r: map<VertexId, Vertex>)
    ensures r.Keys == vertices.Keys
    ensures forall v :: v in r ==> r[v].fixed == vertices[v].fixed
    ensures forall v :: v in r && (vertices[v].fixed || v !in solution) ==> r[v] == vertices[v]
    ensures forall v :: v in r && !vertices[v].fixed && v in solution ==> r[v].estimate == solution[v]
  {
    map v | v in vertices :: if v in solution && !vertices[v].fixed then Vertex(solution[v], false) else vertices[v]
  }
}
