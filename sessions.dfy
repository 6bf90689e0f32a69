/** The session bookkeeping of the extended sparse optimizer, as values.

    A `Session` is the whole mutable state of one optimizer object; the
    functions `AddVertexStep`, `OptimizeStep` and `UpdateGicpConfigurationStep`
    give the state and the result after one call of the corresponding
    operation. The class in module `Optimizer` is proved to follow them. */
module Sessions {
  import opened Poses
  import opened PoseGraph

  /** The exceptions the optimizer throws. */
  datatype Error =
    | VertexLimitReached       // the id counter is at its 64-bit maximum
    | GicpRegistrationFailed   // computing the GICP measurement failed
    | InitializationFailed     // the solver refused the first commit
    | UpdateFailed             // the solver refused an incremental commit

  /** An operation either returns a value or throws. */
  datatype Outcome<T> = Return(value: T) | Throw(error: Error)

  /** What the outside world answers during one `addVertex` call: whether the
      store takes the vertex, the odometry edge and the GICP edge, and whether
      the GICP registration succeeds. */
  datatype AddVertexAnswers = AddVertexAnswers(
    vertexAccepted: bool,
    odometryEdgeAccepted: bool,
    gicpSucceeded: bool,
    gicpEdgeAccepted: bool)

  /** What the solver answers during one `optimize` call: whether a first or an
      incremental commit succeeds, the estimates its iterations produce and
      the count of iterations it reports. */
  datatype OptimizeAnswers = OptimizeAnswers(
    initializeSucceeds: bool,
    updateSucceeds: bool,
    solution: map<VertexId, Pose>,
    iterationsRun: int)

  datatype Session = Session(
    nextVertexId: VertexId,
    initialized: bool,
    verticesToAdd: set<VertexId>,     // staged since the last commit
    edgesToAdd: set<Edge>,            // staged since the last commit
    odometryPoseLastVertex: Pose,
    odometryCovarianceLastVertex: Covariance,
    gicpConfig: GicpConfig,
    graph: Graph)

  /** The invariant every reachable session keeps. */
  ghost predicate Valid(s: Session) {
    var vertices, edges := s.graph.vertices, s.graph.edges;
    // the id counter never passes the 64-bit maximum
    && s.nextVertexId <= MaxVertexId
    // every id handed out so far names a vertex, and no vertex has an id
    // beyond the next one (the next one exists only after a failed registration)
    && (forall v: VertexId :: v < s.nextVertexId ==> v in vertices)
    && (forall v :: v in vertices ==> v <= s.nextVertexId)
    // exactly the first vertex is fixed
    && (forall v :: v in vertices ==> (vertices[v].fixed <==> v == 0))
    // every edge links a vertex to its successor and holds data of its kind
    && (forall e :: e in edges ==>
          && e.source in vertices && e.target in vertices
          && e.target == e.source + 1
          && TagMatches(e, edges[e]))
    // staged items are in the graph; only GICP edges are staged, and only
    // together with their target vertex
    && (forall v :: v in s.verticesToAdd ==> v in vertices && v < s.nextVertexId)
    && (forall e :: e in s.edgesToAdd ==> e in edges && e.tag == Gicp && e.target in s.verticesToAdd)
  }

  /** A freshly constructed optimizer: no vertices, nothing staged, the last
      odometry sample set to the identity. */
  function Initial(identityPose: Pose, identityCovariance: Covariance, config: GicpConfig): (s: Session)
    ensures Valid(s)
    ensures s.nextVertexId == 0 && !s.initialized
    ensures s.graph.vertices == map[] && s.graph.edges == map[]
  {
    Session(0, false, {}, {}, identityPose, identityCovariance, config, Graph(map[], map[]))
  }

  /** One call of `addVertex(pose, covariance)`, step by step as the optimizer
      performs it: the id counter is checked, then the store is given the
      vertex, and for any vertex but the first the odometry edge and the GICP
      edge; a refusal undoes what was inserted in this call. */
  function AddVertexStep(s: Session, ops: PoseOps, pose: Pose, covariance: Covariance, answers: AddVertexAnswers)
    : (r: (Session, Outcome<bool>))
    requires Valid(s)
    ensures Valid(r.0)
    // the id space is exhausted: throw before anything changes
    ensures s.nextVertexId == MaxVertexId ==> r == (s, Throw(VertexLimitReached))
    ensures r.1 == Throw(VertexLimitReached) <==> s.nextVertexId == MaxVertexId
    // the store refuses the vertex, or already holds its id: false, and nothing changes
    ensures s.nextVertexId < MaxVertexId && (s.nextVertexId in s.graph.vertices || !answers.vertexAccepted) ==>
              r == (s, Return(false))
    // success exactly when the id is free and the store and the registration accept everything
    ensures r.1 == Return(true) <==>
              && s.nextVertexId < MaxVertexId
              && s.nextVertexId !in s.graph.vertices
              && answers.vertexAccepted
              && (s.nextVertexId > 0 ==>
                    answers.odometryEdgeAccepted && answers.gicpSucceeded && answers.gicpEdgeAccepted)
    // a refusal by the store leaves no trace
    ensures r.1 == Return(false) ==> r.0 == s
    // the only exceptions are the exhausted id space and a failed registration;
    // a call that does not succeed changes nothing but the graph
    ensures r.1.Throw? ==> r.1.error in {VertexLimitReached, GicpRegistrationFailed}
    ensures r.1 != Return(true) ==> r.0 == s.(graph := r.0.graph)
    // a failed registration strands the new vertex in the graph under the next id
    ensures r.1 == Throw(GicpRegistrationFailed) <==>
              && 0 < s.nextVertexId < MaxVertexId
              && s.nextVertexId !in s.graph.vertices
              && answers.vertexAccepted
              && answers.odometryEdgeAccepted
              && !answers.gicpSucceeded
    ensures r.1 == Throw(GicpRegistrationFailed) ==>
              s.nextVertexId !in s.graph.vertices && s.nextVertexId in r.0.graph.vertices
    // no vertex already in the graph is changed or removed
    ensures forall v :: v in s.graph.vertices ==>
              v in r.0.graph.vertices && r.0.graph.vertices[v] == s.graph.vertices[v]
    // on success the new vertex takes the next id and the counter moves on by one
    ensures r.1 == Return(true) ==>
              && s.nextVertexId !in s.graph.vertices
              && r.0.graph.vertices.Keys == s.graph.vertices.Keys + {s.nextVertexId}
              && r.0.nextVertexId == s.nextVertexId + 1
  {
    var id := s.nextVertexId;
    if id == MaxVertexId then
      (s, Throw(VertexLimitReached))
    else if id in s.graph.vertices || !answers.vertexAccepted then
      (s, Return(false))
    else if id == 0 then
      (AddFirstVertex(s, pose, covariance), Return(true))
    else
      AddLaterVertex(s, ops, pose, covariance, answers)
  }

  /** The first vertex, once the store has taken it: it is fixed at the input
      pose verbatim and gets no edge. */
  function AddFirstVertex(s: Session, pose: Pose, covariance: Covariance): (r: Session)
    requires Valid(s) && s.nextVertexId == 0 && 0 !in s.graph.vertices
    ensures Valid(r)
    ensures r.graph.vertices == map[0 := Vertex(pose, true)]
    ensures r.graph.edges == s.graph.edges && r.edgesToAdd == s.edgesToAdd
    ensures r.verticesToAdd == s.verticesToAdd + {0}
    ensures r.nextVertexId == 1
    ensures r.odometryPoseLastVertex == pose && r.odometryCovarianceLastVertex == covariance
    ensures r.initialized == s.initialized && r.gicpConfig == s.gicpConfig
  {
    assert s.graph.vertices == map[];
    Admitted(s, s.graph.(vertices := map[0 := Vertex(pose, true)]), 0, {}, pose, covariance)
  }

  /** A later vertex, once the store has taken it: it is placed at its
      predecessor's estimate moved by the odometry motion since the last
      sample, and linked to the predecessor by an odometry edge and by a GICP
      edge. A refused edge rolls the graph back; a failed registration throws
      with the vertex and the odometry edge left in the graph. */
  function AddLaterVertex(s: Session, ops: PoseOps, pose: Pose, covariance: Covariance, answers: AddVertexAnswers)
    : (r: (Session, Outcome<bool>))
    requires Valid(s) && 0 < s.nextVertexId < MaxVertexId && s.nextVertexId !in s.graph.vertices
    ensures Valid(r.0)
    // the store refuses the odometry edge: the vertex is taken back out
    ensures !answers.odometryEdgeAccepted ==> r == (s, Return(false))
    // the registration fails: throw, leaving the new vertex and its odometry
    // edge in the graph but updating no counter, staging set or odometry sample
    ensures answers.odometryEdgeAccepted && !answers.gicpSucceeded ==>
              var id := s.nextVertexId;
              var delta := RelativeMotion(ops, s.odometryPoseLastVertex, pose);
              var v := Vertex(ops.compose(s.graph.vertices[id - 1].estimate, delta), false);
              var edges := s.graph.edges[Edge(id - 1, id, Odometry) := OdometryData(delta)];
              r == (s.(graph := Graph(s.graph.vertices[id := v], edges)), Throw(GicpRegistrationFailed))
    // the store refuses the GICP edge: the odometry edge and the vertex are taken back out
    ensures answers.odometryEdgeAccepted && answers.gicpSucceeded && !answers.gicpEdgeAccepted ==>
              r == (s, Return(false))
    // all accepted: the new vertex is not fixed and starts where the odometry
    // motion puts it; both edges are in the graph, only the GICP edge is staged
    ensures answers.odometryEdgeAccepted && answers.gicpSucceeded && answers.gicpEdgeAccepted ==>
              var id := s.nextVertexId;
              var delta := RelativeMotion(ops, s.odometryPoseLastVertex, pose);
              var v := Vertex(ops.compose(s.graph.vertices[id - 1].estimate, delta), false);
              var odometry, gicp := Edge(id - 1, id, Odometry), Edge(id - 1, id, Gicp);
              && r.1 == Return(true)
              && r.0.graph.vertices == s.graph.vertices[id := v]
              && r.0.graph.edges == s.graph.edges[odometry := OdometryData(delta)][gicp := GicpData(EdgeDefault)]
              && r.0.edgesToAdd == s.edgesToAdd + {gicp}
              && r.0.verticesToAdd == s.verticesToAdd + {id}
              && r.0.nextVertexId == id + 1
              && r.0.odometryPoseLastVertex == pose
              && r.0.odometryCovarianceLastVertex == covariance
              && r.0.initialized == s.initialized && r.0.gicpConfig == s.gicpConfig
  {
    var id := s.nextVertexId;
    var g := s.graph;
    var delta := RelativeMotion(ops, s.odometryPoseLastVertex, pose);
    var g1 := g.(vertices := g.vertices[id := Vertex(ops.compose(g.vertices[id - 1].estimate, delta), false)]);
    var odometry := Edge(id - 1, id, Odometry);
    assert odometry !in g.edges;
    if !answers.odometryEdgeAccepted then
      assert g1.vertices - {id} == g.vertices;
      (s.(graph := g1.(vertices := g1.vertices - {id})), Return(false))
    else
      var g2 := g1.(edges := g1.edges[odometry := OdometryData(delta)]);
      if !answers.gicpSucceeded then
        StrandedVertexValid(s, g1.vertices[id], delta);
        (s.(graph := g2), Throw(GicpRegistrationFailed))
      else if !answers.gicpEdgeAccepted then
        var g3 := g2.(edges := g2.edges - {odometry});
        assert g3.edges == g.edges && g3.vertices - {id} == g.vertices;
        (s.(graph := g3.(vertices := g3.vertices - {id})), Return(false))
      else
        var gicp := Edge(id - 1, id, Gicp);
        var g3 := g2.(edges := g2.edges[gicp := GicpData(EdgeDefault)]);
        AdmittedLaterValid(s, g1.vertices[id], delta, pose, covariance);
        (Admitted(s, g3, id, {gicp}, pose, covariance), Return(true))
  }

  /** The graph a failed registration leaves behind, with the new vertex and
      its odometry edge, still satisfies the invariant. */
  lemma StrandedVertexValid(s: Session, v: Vertex, delta: Pose)
    requires Valid(s) && 0 < s.nextVertexId && s.nextVertexId !in s.graph.vertices && !v.fixed
    ensures var id := s.nextVertexId;
            Valid(s.(graph := Graph(s.graph.vertices[id := v], s.graph.edges[Edge(id - 1, id, Odometry) := OdometryData(delta)])))
  {
  }

  /** Admitting a later vertex with both its edges keeps the invariant. */
  lemma AdmittedLaterValid(s: Session, v: Vertex, delta: Pose, pose: Pose, covariance: Covariance)
    requires Valid(s) && 0 < s.nextVertexId < MaxVertexId && s.nextVertexId !in s.graph.vertices && !v.fixed
    ensures var id := s.nextVertexId;
            var gicp := Edge(id - 1, id, Gicp);
            var edges := s.graph.edges[Edge(id - 1, id, Odometry) := OdometryData(delta)][gicp := GicpData(EdgeDefault)];
            Valid(Admitted(s, Graph(s.graph.vertices[id := v], edges), id, {gicp}, pose, covariance))
  {
  }

  /** The bookkeeping once a vertex and its edges were all accepted. */
  function Admitted(s: Session, g: Graph, id: VertexId, staged: set<Edge>, pose: Pose, covariance: Covariance): (r: Session) {
    s.(graph := g,
       edgesToAdd := s.edgesToAdd + staged,
       verticesToAdd := s.verticesToAdd + {id},
       odometryPoseLastVertex := pose,
       odometryCovarianceLastVertex := covariance,
       nextVertexId := id + 1)
  }

  /** One call of `optimize`: commit what is staged (a full initialization the
      first time, an incremental update afterwards), then run the solver. */
  function OptimizeStep(s: Session, answers: OptimizeAnswers): (r: (Session, Outcome<int>))
    requires Valid(s)
    ensures Valid(r.0)
    // a commit fails exactly when something is staged and the solver refuses it
    ensures r.1.Throw? <==>
              s.verticesToAdd != {} &&
              !(if s.initialized then answers.updateSucceeds else answers.initializeSucceeds)
    // which call failed decides the error; the session, staging included, is kept for a retry
    ensures r.1.Throw? ==>
              && r.1.error == (if s.initialized then UpdateFailed else InitializationFailed)
              && r.0 == s
    // otherwise the staging sets are empty afterwards and the optimizer is
    // initialized once anything was ever committed
    ensures r.1.Return? ==>
              && r.0.verticesToAdd == {} && r.0.edgesToAdd == {}
              && r.0.initialized == (s.initialized || s.verticesToAdd != {})
              && r.1.value == answers.iterationsRun
    // with nothing staged no commit takes place
    ensures s.verticesToAdd == {} ==> r.1.Return? && r.0.initialized == s.initialized
    // a commit changes no counter, odometry sample or edge, and the solver
    // moves only vertices that are not fixed
    ensures && r.0.nextVertexId == s.nextVertexId
            && r.0.odometryPoseLastVertex == s.odometryPoseLastVertex
            && r.0.odometryCovarianceLastVertex == s.odometryCovarianceLastVertex
            && r.0.gicpConfig == s.gicpConfig
            && r.0.graph.edges == s.graph.edges
            && r.0.graph.vertices.Keys == s.graph.vertices.Keys
            && (forall v :: v in s.graph.vertices && s.graph.vertices[v].fixed ==>
                  r.0.graph.vertices[v] == s.graph.vertices[v])
  {
    if s.verticesToAdd != {} && s.initialized && !answers.updateSucceeds then
      (s, Throw(UpdateFailed))
    else if s.verticesToAdd != {} && !s.initialized && !answers.initializeSucceeds then
      (s, Throw(InitializationFailed))
    else
      var committed :=
        if s.verticesToAdd != {} then s.(initialized := true, verticesToAdd := {}, edgesToAdd := {})
        else s;
      var solved := committed.graph.(vertices := SolverEstimates(committed.graph.vertices, answers.solution));
      (committed.(graph := solved), Return(answers.iterationsRun))
  }

  /** One call of `updateGICPConfiguration(config)`: remember the configuration
      and push it to every GICP edge. */
  function UpdateGicpConfigurationStep(s: Session, config: GicpConfig): (r: Session)
    requires Valid(s)
    ensures Valid(r)
    ensures r.gicpConfig == config
    ensures r.graph.edges.Keys == s.graph.edges.Keys
    ensures forall e :: e in r.graph.edges && e.tag == Gicp ==> r.graph.edges[e] == GicpData(Configured(config))
    ensures forall e :: e in r.graph.edges && e.tag == Odometry ==> r.graph.edges[e] == s.graph.edges[e]
    ensures r == s.(gicpConfig := config, graph := r.graph)
    ensures r.graph.vertices == s.graph.vertices
  {
    var edges := map e | e in s.graph.edges :: Reconfigured(s.graph.edges[e], config);
    s.(gicpConfig := config, graph := s.graph.(edges := edges))
  }

  /** The vertices whose map-frame transformation could not be updated. */
  function FailedUpdates(ids: set<VertexId>, updated: VertexId -> bool): (failed: set<VertexId>)
    ensures failed <= ids
    ensures forall v :: v in ids ==> (v in failed <==> !updated(v))
  {
    set v | v in ids && !updated(v)
  }
}
