/** Sequences of calls on one optimizer, and what holds across them: ids are
    handed out 0, 1, 2, … one per successful `addVertex`; staged items stay
    staged until a successful `optimize`; a failed registration blocks every
    later `addVertex`; before any optimization each new vertex starts at its
    odometry pose.

    Calls of `updateEnvireTransformations` are not among the calls here: they
    only push poses out to the map store and leave the session unchanged. */
module Runs {
  import opened Poses
  import opened PoseGraph
  import opened Sessions

  /** One call on the optimizer, with what the outside world answers during it. */
  datatype Call =
    | AddVertexCall(pose: Pose, covariance: Covariance, answers: AddVertexAnswers)
    | OptimizeCall(optimizeAnswers: OptimizeAnswers)
    | UpdateGicpConfigurationCall(config: GicpConfig)

  /** What a call gives back to its caller. */
  datatype Reply =
    | AddVertexReply(added: Outcome<bool>)
    | OptimizeReply(iterations: Outcome<int>)
    | ConfigurationUpdated

  function Step(s: Session, ops: PoseOps, c: Call): (r: (Session, Reply))
    requires Valid(s)
    ensures Valid(r.0)
  {
    match c
    case AddVertexCall(pose, covariance, answers) =>
      var (s1, added) := AddVertexStep(s, ops, pose, covariance, answers);
      (s1, AddVertexReply(added))
    case OptimizeCall(answers) =>
      var (s1, iterations) := OptimizeStep(s, answers);
      (s1, OptimizeReply(iterations))
    case UpdateGicpConfigurationCall(config) =>
      (UpdateGicpConfigurationStep(s, config), ConfigurationUpdated)
  }

  /** The session and the replies after the calls, made one after another. */
  function Run(s: Session, ops: PoseOps, calls: seq<Call>): (r: (Session, seq<Reply>))
    requires Valid(s)
    ensures Valid(r.0)
    ensures |r.1| == |calls|
    decreases |calls|
  {
    if calls == [] then (s, [])
    else
      var (s1, reply) := Step(s, ops, calls[0]);
      var (s2, replies) := Run(s1, ops, calls[1..]);
      (s2, [reply] + replies)
  }

  /** The number of `addVertex` calls that returned true. */
  function CountAdded(replies: seq<Reply>): (n: nat) {
    if replies == [] then 0
    else (if replies[0] == AddVertexReply(Return(true)) then 1 else 0) + CountAdded(replies[1..])
  }

  /** A successful `optimize`: the staged items, if any, were committed. */
  predicate Committed(reply: Reply) {
    reply.OptimizeReply? && reply.iterations.Return?
  }

  /** One call moves the id counter on by one exactly when it is a successful `addVertex`. */
  lemma StepAdvancesIds(s: Session, ops: PoseOps, c: Call)
    requires Valid(s)
    ensures var (s1, reply) := Step(s, ops, c);
            s1.nextVertexId == s.nextVertexId + (if reply == AddVertexReply(Return(true)) then 1 else 0)
  {
  }

  /** Over any sequence of calls the id counter grows by exactly the number
      of successful `addVertex` calls. */
  lemma {:induction false} IdsCountSuccessfulAdds(s: Session, ops: PoseOps, calls: seq<Call>)
    requires Valid(s)
    ensures Run(s, ops, calls).0.nextVertexId == s.nextVertexId + CountAdded(Run(s, ops, calls).1)
    decreases |calls|
  {
    if calls != [] {
      var (s1, reply) := Step(s, ops, calls[0]);
      StepAdvancesIds(s, ops, calls[0]);
      IdsCountSuccessfulAdds(s1, ops, calls[1..]);
      var replies := Run(s1, ops, calls[1..]).1;
      assert ([reply] + replies)[1..] == replies;
    }
  }

  /** From a new optimizer, after any sequence of calls of which n `addVertex`
      calls succeeded, the vertices are exactly 0, 1, …, n - 1 — plus the
      vertex n exactly when a registration failed and stranded it. */
  lemma IdsRunFromZero(ops: PoseOps, identityPose: Pose, identityCovariance: Covariance, config: GicpConfig, calls: seq<Call>)
    ensures var (s, replies) := Run(Initial(identityPose, identityCovariance, config), ops, calls);
            var n := CountAdded(replies);
            && s.nextVertexId == n
            && (forall v: VertexId :: v < n ==> v in s.graph.vertices)
            && (forall v :: v in s.graph.vertices ==> v <= n)
            && (n in s.graph.vertices <==> AddVertexReply(Throw(GicpRegistrationFailed)) in replies)
            && (forall v :: v in s.graph.vertices ==> (s.graph.vertices[v].fixed <==> v == 0))
  {
    IdsCountSuccessfulAdds(Initial(identityPose, identityCovariance, config), ops, calls);
    StrandedExactlyAfterFailure(Initial(identityPose, identityCovariance, config), ops, calls);
  }

  /** A call made while a vertex sits under the next id never adds a vertex
      and leaves that vertex where it is. */
  lemma StrandedStep(s: Session, ops: PoseOps, c: Call)
    requires Valid(s) && s.nextVertexId in s.graph.vertices
    ensures var (s1, reply) := Step(s, ops, c);
            && reply != AddVertexReply(Return(true))
            && s1.nextVertexId == s.nextVertexId
            && s1.nextVertexId in s1.graph.vertices
  {
  }

  /** Once a vertex sits under the next id, no later `addVertex` succeeds: the
      store refuses the id it already holds, and nothing in this core removes
      the vertex. */
  lemma {:induction false} StrandedVertexBlocksAdds(s: Session, ops: PoseOps, calls: seq<Call>)
    requires Valid(s) && s.nextVertexId in s.graph.vertices
    ensures CountAdded(Run(s, ops, calls).1) == 0
    ensures Run(s, ops, calls).0.nextVertexId == s.nextVertexId
    ensures Run(s, ops, calls).0.nextVertexId in Run(s, ops, calls).0.graph.vertices
    decreases |calls|
  {
    if calls != [] {
      var (s1, reply) := Step(s, ops, calls[0]);
      StrandedStep(s, ops, calls[0]);
      StrandedVertexBlocksAdds(s1, ops, calls[1..]);
      var replies := Run(s1, ops, calls[1..]).1;
      assert ([reply] + replies)[1..] == replies;
    }
  }

  /** While the next id is free, one call puts a vertex under it exactly when
      it is an `addVertex` whose registration failed. */
  lemma StrandingStep(s: Session, ops: PoseOps, c: Call)
    requires Valid(s) && s.nextVertexId !in s.graph.vertices
    ensures var (s1, reply) := Step(s, ops, c);
            s1.nextVertexId in s1.graph.vertices <==> reply == AddVertexReply(Throw(GicpRegistrationFailed))
  {
  }

  /** Starting with the next id free, after any sequence of calls a vertex
      sits under the next id exactly when some `addVertex` threw because its
      registration failed. */
  lemma {:induction false} StrandedExactlyAfterFailure(s: Session, ops: PoseOps, calls: seq<Call>)
    requires Valid(s) && s.nextVertexId !in s.graph.vertices
    ensures var (s2, replies) := Run(s, ops, calls);
            s2.nextVertexId in s2.graph.vertices <==> AddVertexReply(Throw(GicpRegistrationFailed)) in replies
    decreases |calls|
  {
    if calls != [] {
      var (s1, reply) := Step(s, ops, calls[0]);
      var replies := Run(s1, ops, calls[1..]).1;
      assert Run(s, ops, calls).1 == [reply] + replies;
      StrandingStep(s, ops, calls[0]);
      if reply == AddVertexReply(Throw(GicpRegistrationFailed)) {
        StrandedVertexBlocksAdds(s1, ops, calls[1..]);
      } else {
        StrandedExactlyAfterFailure(s1, ops, calls[1..]);
      }
    }
  }

  /** After `addVertex` throws because the GICP registration failed, no later
      `addVertex` on the same optimizer ever succeeds. */
  lemma RegistrationFailureBlocksLaterAdds(
    s: Session, ops: PoseOps, pose: Pose, covariance: Covariance, answers: AddVertexAnswers, calls: seq<Call>)
    requires Valid(s)
    requires AddVertexStep(s, ops, pose, covariance, answers).1 == Throw(GicpRegistrationFailed)
    ensures CountAdded(Run(AddVertexStep(s, ops, pose, covariance, answers).0, ops, calls).1) == 0
  {
    StrandedVertexBlocksAdds(AddVertexStep(s, ops, pose, covariance, answers).0, ops, calls);
  }

  /** A call other than a successful `optimize` never takes anything out of the staging sets. */
  lemma StagingStep(s: Session, ops: PoseOps, c: Call)
    requires Valid(s)
    ensures var (s1, reply) := Step(s, ops, c);
            !Committed(reply) ==> s.verticesToAdd <= s1.verticesToAdd && s.edgesToAdd <= s1.edgesToAdd
  {
  }

  /** Staged vertices and edges stay staged until a successful `optimize`. */
  lemma {:induction false} StagedUntilCommitted(s: Session, ops: PoseOps, calls: seq<Call>)
    requires Valid(s)
    requires forall i :: 0 <= i < |calls| ==> !Committed(Run(s, ops, calls).1[i])
    ensures s.verticesToAdd <= Run(s, ops, calls).0.verticesToAdd
    ensures s.edgesToAdd <= Run(s, ops, calls).0.edgesToAdd
    decreases |calls|
  {
    if calls != [] {
      var (s1, reply) := Step(s, ops, calls[0]);
      var replies := Run(s1, ops, calls[1..]).1;
      assert Run(s, ops, calls).1 == [reply] + replies;
      assert !Committed(Run(s, ops, calls).1[0]);
      StagingStep(s, ops, calls[0]);
      forall i | 0 <= i < |calls[1..]|
        ensures !Committed(Run(s1, ops, calls[1..]).1[i])
      {
        assert Run(s1, ops, calls[1..]).1[i] == Run(s, ops, calls).1[i + 1];
      }
      StagedUntilCommitted(s1, ops, calls[1..]);
    }
  }

  /** A successful `optimize` leaves nothing staged, so the next `optimize`
      commits nothing: it cannot fail and does not touch the initialized flag. */
  lemma CommitHappensOnce(s: Session, first: OptimizeAnswers, second: OptimizeAnswers)
    requires Valid(s) && OptimizeStep(s, first).1.Return?
    ensures var s1 := OptimizeStep(s, first).0;
            && s1.verticesToAdd == {} && s1.edgesToAdd == {}
            && OptimizeStep(s1, second).1 == Return(second.iterationsRun)
            && OptimizeStep(s1, second).0.initialized == s1.initialized
  {
  }

  /** The newest vertex sits exactly at the last odometry sample. */
  ghost predicate TracksOdometry(s: Session) {
    s.nextVertexId > 0 ==>
      s.nextVertexId - 1 in s.graph.vertices &&
      s.graph.vertices[s.nextVertexId - 1].estimate == s.odometryPoseLastVertex
  }

  /** `addVertex` places a new vertex at its predecessor's estimate moved by
      the odometry motion, so while the predecessor sits at the last odometry
      sample the new vertex sits at the new sample. */
  lemma AddVertexTracksOdometry(s: Session, ops: PoseOps, pose: Pose, covariance: Covariance, answers: AddVertexAnswers)
    requires Valid(s) && Cancels(ops) && TracksOdometry(s)
    ensures TracksOdometry(AddVertexStep(s, ops, pose, covariance, answers).0)
  {
  }

  /** Before any `optimize`, and provided pose composition cancels on the
      left exactly, the newest vertex always sits at the last odometry
      sample: the initial estimates reproduce the odometry trajectory. */
  lemma {:induction false} TracksOdometryUntilOptimized(s: Session, ops: PoseOps, calls: seq<Call>)
    requires Valid(s) && Cancels(ops) && TracksOdometry(s)
    requires forall i :: 0 <= i < |calls| ==> !calls[i].OptimizeCall?
    ensures TracksOdometry(Run(s, ops, calls).0)
    decreases |calls|
  {
    if calls != [] {
      var c := calls[0];
      if c.AddVertexCall? {
        AddVertexTracksOdometry(s, ops, c.pose, c.covariance, c.answers);
      }
      TracksOdometryUntilOptimized(Step(s, ops, c).0, ops, calls[1..]);
    }
  }
}
