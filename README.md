# Session bookkeeping of the extended sparse optimizer

This project models the bookkeeping that `ExtendedSparseOptimizer`
(`src/extended_sparse_optimizer.cpp`) layers on top of a g2o sparse
optimizer in a graph-SLAM system. The optimizer keeps:

- a 64-bit id counter (`next_vertex_id`);
- an `initialized` flag;
- the staging sets `vertices_to_add` and `edges_to_add`, which hold what was
  added since the last commit to the solver;
- the last odometry sample (pose and covariance);
- the pose graph itself: vertices with a pose estimate and a fixed flag, and
  odometry and GICP edges between consecutive vertices.

Operations modelled:

- `addVertex` gives each new vertex the next id. The first vertex is fixed at
  the input pose. Every later vertex is placed at its predecessor's estimate
  moved by the odometry motion. It is linked to the predecessor by an
  odometry edge and a GICP edge. When the store refuses the vertex or an
  edge, the call takes back what it inserted.
- `optimize` commits the staged items. The first commit is a full
  initialization and later ones are incremental updates. The staging sets
  are cleared only after a commit succeeds.
- `updateEnvireTransformations` pushes each vertex's pose to the map store
  and counts the failures.
- `updateGICPConfiguration` pushes a new registration configuration to every
  GICP edge.

Poses, covariances and GICP configurations are opaque values. Pose
composition and inverse are supplied as a `PoseOps` value. Everything the
optimizer learns from code outside this file is an explicit input:

- whether the store accepts a vertex or an edge;
- whether GICP registration succeeds;
- whether the solver accepts a commit;
- the estimates and iteration count the solver reports;
- whether the map store accepts each vertex's pose.

Thrown exceptions are an `Outcome.Throw` result.

Layout:

- `poses.dfy` (module `Poses`): the opaque pose algebra and the relative
  motion `last⁻¹ ∘ current`.
- `pose_graph.dfy` (module `PoseGraph`): vertices, tagged edges, the
  64-bit id limit and the solver's effect on estimates.
- `sessions.dfy` (module `Sessions`): the optimizer's state as a `Session`
  value with its invariant `Valid`. It also has one function per operation
  (`AddVertexStep`, `OptimizeStep`, `UpdateGicpConfigurationStep`), whose
  contracts state what the operation does.
- `optimizer.dfy` (module `Optimizer`): the class `ExtendedSparseOptimizer`.
  Its fields are updated in place, and each mutating method is proved to
  produce exactly the state and the result of its step function.
  `UpdateEnvireTransformations` and `UpdateGicpConfiguration` are loops over
  the vertices and the edges.
- `runs.dfy` (module `Runs`): arbitrary sequences of calls, and the
  properties that hold across them.

Behaviour of the code worth knowing, which the model keeps:

- A failed GICP registration is not rolled back. `addVertex` throws with
  the new vertex and its odometry edge left in the graph, and the id counter
  does not move. The store refuses an id it already holds, so after this
  every later `addVertex` returns false (`Runs.RegistrationFailureBlocksLaterAdds`).
- `addVertex` does not check that the pose or the covariance is finite.
- `ExtendedSparseOptimizer` keeps no shadow graph. Any marginal-covariance
  graph lies outside this class and is not modelled.
- When nothing is staged, `optimize` commits nothing, even if no commit has
  ever happened.
- A new GICP edge keeps the default configuration it was built with. It does
  not get the optimizer's current configuration until the next
  `updateGICPConfiguration`.

## Model

| member | source | states |
|---|---|---|
| `Poses.RelativeMotion` | src/extended_sparse_optimizer.cpp:97 | The odometry delta is `last⁻¹ ∘ current`. Wherever left cancellation holds, composing the last pose with it gives the current pose exactly. |
| `PoseGraph.Reconfigured` | src/extended_sparse_optimizer.cpp:50-55 | A configuration update gives a GICP edge the new configuration and leaves an odometry edge as it was. |
| `PoseGraph.SolverEstimates` | src/extended_sparse_optimizer.cpp:170 | The solver run keeps the vertex set and every fixed flag. A fixed vertex, or one the solver reports nothing for, keeps its estimate. Any other vertex takes the solver's estimate. |
| `Sessions.Initial` | src/extended_sparse_optimizer.cpp:19-20 | A new optimizer has id counter 0, is not initialized, has nothing staged and an empty graph, and satisfies the session invariant. |
| `Sessions.AddVertexStep` | src/extended_sparse_optimizer.cpp:58-146 | It throws `VertexLimitReached` exactly at the 64-bit maximum id, with no change. Below it, a refused vertex or an id the store already holds returns false with no change. It succeeds exactly when the id is free and the store and the registration accept everything. It throws `GicpRegistrationFailed` exactly when a later vertex and its odometry edge were accepted and registration failed, and that strands the new vertex under the next id. Any false return leaves the session unchanged, any failure changes nothing but the graph, and existing vertices are never changed. On success the new vertex takes the next id and the counter grows by one. The invariant is kept. |
| `Sessions.AddFirstVertex` | src/extended_sparse_optimizer.cpp:86-93 | Vertex 0 is fixed with its estimate equal to the input pose, and gets no edge. It is staged, the input becomes the last odometry sample, and the counter becomes 1. |
| `Sessions.AddLaterVertex` | src/extended_sparse_optimizer.cpp:94-145 | A refused odometry edge or a refused GICP edge leaves the session exactly as before. A failed registration throws, with the vertex and the odometry edge left in the graph and nothing else changed. On success the vertex is unfixed and sits at `estimate(k-1) ∘ delta`. The odometry edge k-1→k measures delta. The GICP edge k-1→k is the only edge staged. The vertex is staged, the sample recorded and the counter grows by one. |
| `Sessions.OptimizeStep` | src/extended_sparse_optimizer.cpp:148-171 | It throws exactly when something is staged and the initialization (first commit) or the update (later commits) fails. A throw leaves the session and its staging untouched. On success both staging sets are empty, and the optimizer is initialized iff it was before or something was staged. With nothing staged no commit happens. Counters, samples and edges never change, and fixed vertices never move. |
| `Sessions.UpdateGicpConfigurationStep` | src/extended_sparse_optimizer.cpp:46-56 | The configuration is stored and every GICP edge gets it. Odometry edges, the edge set and the vertices are unchanged, and the invariant is kept. |
| `Sessions.FailedUpdates` | src/extended_sparse_optimizer.cpp:176-181 | A vertex counts as failed exactly when its map-store update failed. |
| `Optimizer.ExtendedSparseOptimizer.constructor` | src/extended_sparse_optimizer.cpp:19-23 | The new object is in the initial session state and satisfies the invariant. |
| `Optimizer.ExtendedSparseOptimizer.AddVertex` | src/extended_sparse_optimizer.cpp:58-146 | Updating the fields in place yields exactly `AddVertexStep`'s new state and result, so every property of that function holds of the object. |
| `Optimizer.ExtendedSparseOptimizer.AddLinkedVertex` | src/extended_sparse_optimizer.cpp:94-145 | For a vertex after the first, the insertions and compensating removals yield exactly `AddLaterVertex`'s state and result. |
| `Optimizer.ExtendedSparseOptimizer.Optimize` | src/extended_sparse_optimizer.cpp:148-171 | The commit and the solver run yield exactly `OptimizeStep`'s new state and result. |
| `Optimizer.ExtendedSparseOptimizer.UpdateEnvireTransformations` | src/extended_sparse_optimizer.cpp:173-183 | The result is true iff the number of failed vertices is 0 modulo 2^32 (the unsigned counter wraps). With fewer than 2^32 vertices it is true iff every update succeeded. |
| `Optimizer.ExtendedSparseOptimizer.UpdateGicpConfiguration` | src/extended_sparse_optimizer.cpp:46-56 | The loop over the edges yields exactly `UpdateGicpConfigurationStep`'s new state. |
| `Optimizer.NoWrapBelowRange` | src/extended_sparse_optimizer.cpp:175-182 | Below 2^32 vertices, the wrapped failure count is zero exactly when no update failed. |
| `Runs.Run` | src/extended_sparse_optimizer.cpp:19-183 | Any sequence of calls from a valid session ends in a valid session. |
| `Runs.IdsCountSuccessfulAdds` | src/extended_sparse_optimizer.cpp:144 | Over any sequence of calls, the id counter grows by exactly the number of successful `addVertex` calls. |
| `Runs.IdsRunFromZero` | src/extended_sparse_optimizer.cpp:73 | From a new optimizer, after n successful adds the counter is n and the vertices are 0..n-1, plus the vertex n exactly when some `addVertex` threw on a failed registration. Only vertex 0 is fixed. |
| `Runs.StrandedVertexBlocksAdds` | src/extended_sparse_optimizer.cpp:79-84 | While a vertex occupies the next id, no later `addVertex` succeeds, the counter stays put and the vertex stays. |
| `Runs.RegistrationFailureBlocksLaterAdds` | src/extended_sparse_optimizer.cpp:125-126 | After `addVertex` throws on a failed GICP registration, no later `addVertex` among the modelled calls ever succeeds. |
| `Runs.StagedUntilCommitted` | src/extended_sparse_optimizer.cpp:151-166 | Staged vertices and edges stay staged until an `optimize` succeeds. |
| `Runs.CommitHappensOnce` | src/extended_sparse_optimizer.cpp:151-166 | After a successful `optimize` nothing is staged. The next `optimize` then commits nothing, cannot throw and leaves `initialized` alone. |
| `Runs.AddVertexTracksOdometry` | src/extended_sparse_optimizer.cpp:96-101 | Suppose left cancellation holds and the newest vertex sits at the last odometry sample. Then after `addVertex` the newest vertex sits at the new last sample. |
| `Runs.StrandingStep` | src/extended_sparse_optimizer.cpp:79-126 | While the next id is free, one call puts a vertex under it exactly when it is an `addVertex` whose registration failed. |
| `Runs.StrandedExactlyAfterFailure` | src/extended_sparse_optimizer.cpp:79-126 | Starting with the next id free, after any sequence of calls a vertex sits under the next id exactly when some `addVertex` threw on a failed registration. |
| `Runs.TracksOdometryUntilOptimized` | src/extended_sparse_optimizer.cpp:86-101 | Suppose left cancellation holds and the newest vertex sits at the last odometry sample. Then across any calls without an `optimize` it keeps sitting at the last odometry sample: the initial estimates reproduce the odometry trajectory. |

## Left out

- Solver construction (`setupOptimizer`, lines 29-44): it happens inside g2o and has no bookkeeping.
- The nonlinear solver's iterations (line 170). The estimates they produce and the iteration count they report are inputs. `optimize`'s `iterations` and `online` arguments are only passed to the solver and are left out.
- Pose and covariance arithmetic (lines 68-69, 98, 109): the covariance delta, the information matrix of the odometry edge and `combineToPoseCovariance` are floating-point linear algebra. Poses are opaque. Covariances are stored but never combined, and edges carry no information matrix.
- GICP registration and point-cloud attachment (lines 76, 125). Their code is not part of this model. Registration is reduced to a success flag. The GICP edge's measurement, the point cloud and the `delayed_icp_update` flag are not modelled.
- The per-vertex map-store update (line 179) is reduced to its success flag. The null check on the vertex pointer is left out, since the store never holds a null vertex.
- The g2o store: it is reduced to accept/refuse answers, plus the rule that it refuses an id it already holds. g2o keeps vertex ids as `int`; that narrowing of the 64-bit counter is not part of this model.
- `dynamic_cast` dispatch is replaced by the edge tag and the edge data's kind. `new`/`delete` memory management and `std::cerr` logging are left out.
- Iteration order over vertices and edges: the loops visit them in an arbitrary order, and no result depends on the order.
- Exact pose arithmetic: the odometry lemmas assume that pose composition cancels on the left exactly (`Poses.Cancels`). The source composes double-precision isometries (lines 97, 101), so the program reproduces the odometry poses only up to floating-point rounding.
- Direct use of the inherited store interface: the class publicly inherits the sparse optimizer (line 19), so other code may add edges (loop closures, say) or remove vertices. The model covers only the calls this class defines, so the edge shape in `Sessions.Valid` (only k-1→k edges) and the claim that a stranded vertex blocks every later `addVertex` hold only for those calls.
