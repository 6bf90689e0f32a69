/** The optimizer object itself: the session fields it updates in place and
    the pose-graph store it inherits, with its four operations proved to
    follow the specification in module `Sessions`. */
module Optimizer {
  import opened Poses
  import opened PoseGraph
  import opened Sessions

  /** The range of the 32-bit unsigned error counter of `UpdateEnvireTransformations`. */
  const UnsignedRange: nat := 0x1_0000_0000

  class ExtendedSparseOptimizer {
    /** Pose composition and inverse, as the pose library provides them. */
    const ops: PoseOps

    var nextVertexId: VertexId
    var initialized: bool
    var verticesToAdd: set<VertexId>
    var edgesToAdd: set<Edge>
    var odometryPoseLastVertex: Pose
    var odometryCovarianceLastVertex: Covariance
    var gicpConfig: GicpConfig
    // the vertex and edge sets of the underlying sparse optimizer
    var vertices: map<VertexId, Vertex>
    var edges: map<Edge, EdgeData>

    /** The object's fields as a session value. */
    ghost function State(): Session
      reads this
    {
      Session(nextVertexId, initialized, verticesToAdd, edgesToAdd,
              odometryPoseLastVertex, odometryCovarianceLastVertex, gicpConfig,
              Graph(vertices, edges))
    }

    ghost predicate Valid()
      reads this
    {
      Sessions.Valid(State())
    }

    /** An empty optimizer whose last odometry sample is the identity. */
    constructor (ops: PoseOps, identityPose: Pose, identityCovariance: Covariance, config: GicpConfig)
      ensures Valid()
      ensures this.ops == ops
      ensures State() == Initial(identityPose, identityCovariance, config)
    {
      this.ops := ops;
      nextVertexId := 0;
      initialized := false;
      verticesToAdd := {};
      edgesToAdd := {};
      odometryPoseLastVertex := identityPose;
      odometryCovarianceLastVertex := identityCovariance;
      gicpConfig := config;
      vertices := map[];
      edges := map[];
    }

    /** Adds a vertex for a new odometry sample. Returns false when the store
        refuses the vertex or one of its edges, after taking back what this
        call inserted; throws when the ids are exhausted or the GICP
        registration fails. */
    method AddVertex(pose: Pose, covariance: Covariance, answers: AddVertexAnswers) returns (r: Outcome<bool>)
      requires Valid()
      modifies this
      ensures (State(), r) == AddVertexStep(old(State()), ops, pose, covariance, answers)
      ensures Valid()
    {
      ghost var s0 := State();
      if nextVertexId == MaxVertexId {
        return Throw(VertexLimitReached);
      }
      var id := nextVertexId;
      // the store refuses an id it already holds
      if id in vertices || !answers.vertexAccepted {
        return Return(false);
      }
      // the vertex is inserted with the fixed flag and the estimate it is
      // given right after its insertion
      if id == 0 {
        vertices := vertices[id := Vertex(pose, true)];
        verticesToAdd := verticesToAdd + {id};
        odometryPoseLastVertex := pose;
        odometryCovarianceLastVertex := covariance;
        nextVertexId := nextVertexId + 1;
        assert State() == AddFirstVertex(s0, pose, covariance);
        return Return(true);
      }
      r := AddLinkedVertex(pose, covariance, answers);
    }

    /** The part of `AddVertex` for every vertex but the first, once the store
        has taken the vertex: link it to its predecessor by an odometry edge
        and a GICP edge, taking the vertex back out if an edge is refused. */
    method AddLinkedVertex(pose: Pose, covariance: Covariance, answers: AddVertexAnswers) returns (r: Outcome<bool>)
      requires Valid() && 0 < nextVertexId < MaxVertexId && nextVertexId !in vertices
      modifies this
      ensures (State(), r) == AddLaterVertex(old(State()), ops, pose, covariance, answers)
    {
      var id := nextVertexId;
      var delta := RelativeMotion(ops, odometryPoseLastVertex, pose);
      vertices := vertices[id := Vertex(ops.compose(vertices[id - 1].estimate, delta), false)];
      var odometry := Edge(id - 1, id, Odometry);
      if !answers.odometryEdgeAccepted {
        vertices := vertices - {id};
        return Return(false);
      }
      edges := edges[odometry := OdometryData(delta)];
      if !answers.gicpSucceeded {
        return Throw(GicpRegistrationFailed);
      }
      var gicp := Edge(id - 1, id, Gicp);
      if !answers.gicpEdgeAccepted {
        edges := edges - {odometry};
        vertices := vertices - {id};
        return Return(false);
      }
      edges := edges[gicp := GicpData(EdgeDefault)];
      edgesToAdd := edgesToAdd + {gicp};
      verticesToAdd := verticesToAdd + {id};
      odometryPoseLastVertex := pose;
      odometryCovarianceLastVertex := covariance;
      nextVertexId := nextVertexId + 1;
      assert State() == Admitted(old(State()), Graph(vertices, edges), id, {gicp}, pose, covariance);
      r := Return(true);
    }

    /** Commits the staged vertices and edges to the solver, then runs it. */
    method Optimize(answers: OptimizeAnswers) returns (r: Outcome<int>)
      requires Valid()
      modifies this
      ensures (State(), r) == OptimizeStep(old(State()), answers)
      ensures Valid()
    {
      if verticesToAdd != {} {
        if initialized {
          if !answers.updateSucceeds {
            return Throw(UpdateFailed);
          }
        } else {
          if !answers.initializeSucceeds {
            return Throw(InitializationFailed);
          }
          initialized := true;
        }
        verticesToAdd := {};
        edgesToAdd := {};
      }
      // the solver's iterations move the vertices that are not fixed
      vertices := SolverEstimates(vertices, answers.solution);
      r := Return(answers.iterationsRun);
    }

    /** Pushes every vertex's pose to the map store and reports whether none
        failed. `updated(v)` says whether the store took vertex v's pose. The
        failures are counted in a 32-bit unsigned counter, which wraps. */
    method UpdateEnvireTransformations(updated: VertexId -> bool) returns (ok: bool)
      ensures ok <==> |FailedUpdates(vertices.Keys, updated)| % UnsignedRange == 0
      ensures |vertices.Keys| < UnsignedRange ==> (ok <==> forall v :: v in vertices ==> updated(v))
    {
      var errors: nat := 0;
      var pending := vertices.Keys;
      ghost var visited: set<VertexId> := {};
      while pending != {}
        invariant pending !! visited && pending + visited == vertices.Keys
        invariant errors == |FailedUpdates(visited, updated)| % UnsignedRange
        decreases pending
      {
        var v :| v in pending;
        ghost var failures := |FailedUpdates(visited, updated)|;
        if !updated(v) {
          errors := if errors == UnsignedRange - 1 then 0 else errors + 1;
        }
        assert errors == |FailedUpdates(visited + {v}, updated)| % UnsignedRange by {
          FailedUpdatesGrow(visited, v, updated);
          WrappingIncrement(failures);
        }
        pending := pending - {v};
        visited := visited + {v};
      }
      ok := errors == 0;
      if |vertices.Keys| < UnsignedRange {
        NoWrapBelowRange(vertices.Keys, updated);
      }
    }

    /** Sets the GICP configuration and pushes it to every GICP edge. */
    method UpdateGicpConfiguration(config: GicpConfig)
      requires Valid()
      modifies this
      ensures State() == UpdateGicpConfigurationStep(old(State()), config)
      ensures Valid()
    {
      gicpConfig := config;
      var pending := edges.Keys;
      while pending != {}
        invariant pending <= edges.Keys == old(edges).Keys
        invariant forall e :: e in edges ==>
                    edges[e] == if e in pending then old(edges)[e] else Reconfigured(old(edges)[e], config)
        invariant State() == old(State()).(gicpConfig := config, graph := Graph(old(vertices), edges))
        decreases pending
      {
        var e :| e in pending;
        if edges[e].GicpData? {
          edges := edges[e := GicpData(Configured(config))];
        }
        pending := pending - {e};
      }
      assert edges == map e | e in old(edges) :: Reconfigured(old(edges)[e], config);
    }
  }

  /** Visiting one more vertex adds it to the failures exactly when its update failed. */
  lemma FailedUpdatesGrow(visited: set<VertexId>, v: VertexId, updated: VertexId -> bool)
    requires v !in visited
    ensures |FailedUpdates(visited + {v}, updated)| ==
            |FailedUpdates(visited, updated)| + (if updated(v) then 0 else 1)
  {
    if updated(v) {
      assert FailedUpdates(visited + {v}, updated) == FailedUpdates(visited, updated);
    } else {
      assert FailedUpdates(visited + {v}, updated) == FailedUpdates(visited, updated) + {v};
    }
  }

  /** Adding one to a 32-bit unsigned counter wraps from its maximum to zero. */
  lemma WrappingIncrement(n: nat)
    ensures (n + 1) % UnsignedRange == if n % UnsignedRange == UnsignedRange - 1 then 0 else n % UnsignedRange + 1
  {
  }

  /** With fewer vertices than the counter's range, the wrapped count is zero
      exactly when every update succeeded. */
  lemma NoWrapBelowRange(ids: set<VertexId>, updated: VertexId -> bool)
    requires |ids| < UnsignedRange
    ensures |FailedUpdates(ids, updated)| % UnsignedRange == 0 <==> forall v :: v in ids ==> updated(v)
  {
    FailedUpdatesBound(ids, updated);
  }

  /** There are no more failures than vertices, and none exactly when every update succeeded. */
  lemma FailedUpdatesBound(ids: set<VertexId>, updated: VertexId -> bool)
    ensures |FailedUpdates(ids, updated)| <= |ids|
    ensures FailedUpdates(ids, updated) == {} <==> forall v :: v in ids ==> updated(v)
  {
    var failed := FailedUpdates(ids, updated);
    assert ids == failed + (ids - failed);
  }
}
