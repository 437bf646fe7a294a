# Epidemic renderer core, modelled in Dafny

This project models the non-graphics state of the `renderer` class in the
epidemic-diffusion visualiser. The renderer does four things:

- It builds a contact network of N nodes. The network starts as a clique of
  M0 seed nodes. Every later node then attaches to M distinct lower nodes by
  preferential attachment: a node is chosen with probability proportional to
  its degree.
- It seeds an interleaved state buffer of 2N values. Slot `2k` holds node
  `k`'s susceptible value and slot `2k + 1` its infected value.
- It advances the simulation by dispatching a compute kernel over two state
  buffers, then swaps their handles.
- It reads results back, counts infected nodes, and lists the line segments
  of the network's edges.

The network is kept as the renderer keeps it: an N x N 0/1 matrix (one
`edge_list` row per node), a degree array and a degree total. These are the
fields of class `EpidemicRenderer.Renderer`, updated in place. The degree array is a
fixed-size `array<int>`.

The GPU is a `Device` value. It holds integer and float buffers by handle and
the handle bound to each shader-storage slot. The compute kernel is an opaque
function parameter from what a dispatch reads (`Dispatch`) to what it writes
(`Written`). The sizes N, M0 and M are constructor parameters; renderer.h
fixes them to 500, 4 and 4 (`EpidemicRenderer.SourceSizes`).

A lifecycle flag (`Phase`) records the call order: constructed, initialised,
growing, generated. The class invariant `Valid` states, by phase, what holds
of the graph and the buffers.

Modules:

- `Counting`: counting and summing over sequences.
- `Graph`: the matrix predicates, adding one edge, row-major flattening, and
  the edge-vertex list.
- `Construction`: the states of the clique loops and of the attachment loops,
  with the lemmas that move between them.
- `Results`: the interleaved state buffer and its seeding.
- `EpidemicRenderer`: the sizes and constants, and the `Renderer` class.

Some behaviours of the code are modelled as written:

- **Seeding does not wrap.** `init` writes the seeds at `startNode`,
  `startNode + 1` and `startNode + 4` with no reduction modulo N, so the model
  requires `startNode + 4 < N`. The seed indices are not reduced modulo N, so
  a start node near the end of the node list would write past the buffer.
- **No break on an adjacent pick.** In `generate`, when the chosen node is
  already adjacent, the walk does not stop: it moves on to the next node.
- **An attempt can add nothing.** The walk stops below node `i`, while the
  degree total also counts node `i` itself. So an attempt can reach the end
  and add no edge (`Construction.FallsOffEnd`).
- **The kernel sees D as 0.** `D` (0.4) is handed to the kernel with the
  integer uniform setter, so the kernel receives its truncation, 0
  (`EpidemicRenderer.DiffusionUniformIsZero`).

## Model

| member | source | states |
|---|---|---|
| EpidemicRenderer.Clamp | EphidemicDiffusion/renderer.cpp:3-7 | below the range gives the lower bound; above it gives the upper bound; inside it gives the value; for a non-empty range the result lies in the range |
| EpidemicRenderer.ClampIdempotent | EphidemicDiffusion/renderer.cpp:3-7 | clamping an already clamped value changes nothing |
| EpidemicRenderer.SourceSizes | EphidemicDiffusion/renderer.h:7-9 | N = 500, M0 = 4, M = 4 meet 2 <= M0 <= N and 1 <= M <= M0, and start node 0 leaves room for the seeds |
| EpidemicRenderer.Renderer.constructor | EphidemicDiffusion/renderer.cpp:9-22 | the degree total is 0 and every degree is 0; the phase is constructed |
| EpidemicRenderer.Renderer.ZeroGraph | EphidemicDiffusion/renderer.cpp:29-37 | every matrix entry and every degree is 0, which is a valid graph with total 0 |
| Graph.EmptyGraph | EphidemicDiffusion/renderer.cpp:31-37 | the all-zero matrix with zero degrees is symmetric and loop-free, its degrees match its rows, and its total is 0 |
| EpidemicRenderer.Renderer.BuildSeedClique | EphidemicDiffusion/renderer.cpp:39-48 | exactly the pairs of distinct nodes below M0 are adjacent, in both directions; those nodes have degree M0 - 1 and the others 0; the total is M0 * (M0 - 1); the graph invariant holds |
| EpidemicRenderer.Renderer.ConnectLaterSeeds | EphidemicDiffusion/renderer.cpp:41-47 | the inner clique loop takes the state at pair (i, i + 1) to the state at (i, M0) |
| EpidemicRenderer.Renderer.ConnectSeedPair | EphidemicDiffusion/renderer.cpp:42-46 | handling pair (i, j) moves the clique state from (i, j) to (i, j + 1) |
| Construction.CliqueStep | EphidemicDiffusion/renderer.cpp:42-46 | linking pair (i, j) in the clique state at (i, j) gives the clique state at (i, j + 1) |
| Construction.CliqueNextRow | EphidemicDiffusion/renderer.cpp:40-41 | the end of row i is the start of row i + 1, including the total |
| Construction.CliqueStart | EphidemicDiffusion/renderer.cpp:39-41 | the zero graph is the clique state before pair (0, 1) |
| Construction.CliqueComplete | EphidemicDiffusion/renderer.cpp:40-48 | after the loops, every pair of distinct nodes below M0 is adjacent; their degrees are M0 - 1 and the total is M0 * (M0 - 1) |
| EpidemicRenderer.Renderer.AddNode | EphidemicDiffusion/renderer.cpp:260-266 | both mirrored entries become 1, both degrees go up by one and the total by two, and nothing else changes; for a new edge between distinct nodes the graph invariant is kept |
| Graph.Link | EphidemicDiffusion/renderer.cpp:261-262 | rows `i` and `j` get the new entry; every other row is unchanged |
| Graph.Bump | EphidemicDiffusion/renderer.cpp:263-264 | both degrees go up by one (by two when the nodes are the same) |
| Graph.LinkAt | EphidemicDiffusion/renderer.cpp:261-262 | entry by entry, only the two mirrored entries change, to 1 |
| Graph.LinkShape | EphidemicDiffusion/renderer.cpp:261-262 | linking distinct nodes keeps the matrix 0/1, symmetric and loop-free |
| Graph.LinkDegrees | EphidemicDiffusion/renderer.cpp:260-266 | for a new edge, every degree still equals the number of 1s in its row |
| Graph.UpperLink | EphidemicDiffusion/renderer.cpp:260-266 | a new edge adds exactly one to the count of adjacent pairs |
| Graph.LinkKeepsGraph | EphidemicDiffusion/renderer.cpp:260-266 | a new edge between distinct nodes keeps the matrix 0/1, symmetric and loop-free; degrees match rows; the degrees sum to the total, which grows by 2 and stays twice the edge count |
| EpidemicRenderer.Renderer.CreateBuffers | EphidemicDiffusion/renderer.cpp:107-145 | the adjacency buffer holds the flattened matrix and the degree buffer the degrees; the results buffer is seeded and the last-results buffer is zero; slots 1-4 are bound in order; the four handles are distinct |
| EpidemicRenderer.Renderer.Init | EphidemicDiffusion/renderer.cpp:28-149 | from a constructed renderer: the graph is the seed clique; the device holds exactly the flattened matrix, the degrees, the seeded results and the zero last results under the four given handles; the phase is initialised |
| Graph.Flatten | EphidemicDiffusion/renderer.cpp:109-114 | the row-major flattening uploaded to the adjacency buffer: every value of every row appears in it and every value in it comes from some row (its layout is stated by FlattenLength and FlattenAt) |
| Graph.FlattenLength | EphidemicDiffusion/renderer.cpp:109-114 | with rows of width N the flattening has N * N entries |
| Graph.FlattenAt | EphidemicDiffusion/renderer.cpp:287-292 | entry (i, j) sits at index i * N + j of the flattening |
| Results.SeedResults | EphidemicDiffusion/renderer.cpp:125-137 | the buffer has length 2N; the start node and the nodes 1 and 4 after it hold (0, 1); every other node holds (1, 0) |
| Results.SeededCounts | EphidemicDiffusion/renderer.cpp:125-137 | the seeded buffer has exactly 3 infected nodes and N - 3 susceptible ones |
| Results.SeededPrefixCounts | EphidemicDiffusion/renderer.cpp:126-137 | among the first k nodes, the infected ones are exactly the seeds below k |
| Results.ZeroBufferCounts | EphidemicDiffusion/renderer.cpp:143 | the zeroed last-results buffer shows no infected and no susceptible node |
| EpidemicRenderer.Renderer.Attempt | EphidemicDiffusion/renderer.cpp:272-283 | one draw adds at most one edge. It goes to the first node below `i` whose cumulative degree share exceeds the draw and that is not yet adjacent to `i`. With no such node, the matrix, degrees and total are unchanged |
| Construction.ShareStep | EphidemicDiffusion/renderer.cpp:275 | adding node j's share to the running sum gives the cumulative share up to j |
| Construction.ShareMonotone | EphidemicDiffusion/renderer.cpp:273-276 | cumulative shares never decrease, so once the draw is passed it stays passed |
| Construction.FallsOffEnd | EphidemicDiffusion/renderer.cpp:274-283 | while node i has e edges, a draw of at least (total - e) / total finds no node: the attempt adds nothing |
| Construction.FirstDrawAttaches | EphidemicDiffusion/renderer.cpp:272-283 | a new node's first draw below 1 always finds a node, because the lower shares add up to 1 and no lower node is adjacent yet |
| Construction.NoShareAbove | EphidemicDiffusion/renderer.cpp:274-276 | a draw at or above the share of the nodes below i passes no cumulative share below i |
| EpidemicRenderer.Renderer.AttachNode | EphidemicDiffusion/renderer.cpp:270-284 | from the state before node i, either node i gets M edges and the state is the one before node i + 1, or the draws run out on a consistent graph that keeps the clique; in both cases only edges (j, i) are added: every entry outside row and column i is unchanged and every other node's degree grows by its new entry in column i |
| Construction.OnlyNodeLinkedBegin | EphidemicDiffusion/renderer.cpp:270 | before node i is attached, no node is adjacent to it |
| Construction.OnlyNodeLinkedStep | EphidemicDiffusion/renderer.cpp:277-279 | linking node i to a node it is not adjacent to changes no entry outside row and column i, and grows only that node's degree, by its new entry |
| Construction.AttachBegin | EphidemicDiffusion/renderer.cpp:270 | a node that is about to be attached has no edges yet |
| Construction.AttachStep | EphidemicDiffusion/renderer.cpp:277-279 | linking node i to a lower node that is not adjacent to it adds one lower edge to node i and keeps the graph invariant, the clique, the earlier nodes' counts and the empty later rows |
| Construction.AttachEnd | EphidemicDiffusion/renderer.cpp:271 | when node i has M edges, the loop state is the one before node i + 1 |
| Construction.AttachingDegrees | EphidemicDiffusion/renderer.cpp:269-284 | during node i's loop, node i's degree is its edge count, later nodes have degree 0, and the lower degrees sum to the total minus node i's edges |
| Construction.NodeExit | EphidemicDiffusion/renderer.cpp:269-284 | when node i's loop ends, it has exactly M neighbours, all of lower index; later nodes have no edges and degree 0 |
| Construction.SeedIsBefore | EphidemicDiffusion/renderer.cpp:269 | the finished seed clique is the state before node M0 |
| Construction.TotalPositive | EphidemicDiffusion/renderer.cpp:275 | the degree total the walk divides by is positive |
| EpidemicRenderer.Renderer.GrowNetwork | EphidemicDiffusion/renderer.cpp:269-285 | when it reports complete, the graph is complete: consistent, the clique kept, every node from M0 on with M lower neighbours, and total M0 * (M0 - 1) + 2 * M * (N - M0) |
| Construction.Finished | EphidemicDiffusion/renderer.cpp:268-285 | the finished network has M0 * (M0 - 1) / 2 + M * (N - M0) edges; seed nodes have degree at least M0 - 1 and later nodes at least M |
| Construction.SeedRowCount | EphidemicDiffusion/renderer.cpp:40-48 | a seed node's row holds at least M0 - 1 ones |
| EpidemicRenderer.Renderer.UploadGraph | EphidemicDiffusion/renderer.cpp:286-301 | the adjacency buffer gets the flattened matrix and the degree buffer the degrees; the float buffers and bindings are unchanged |
| EpidemicRenderer.Renderer.Generate | EphidemicDiffusion/renderer.cpp:268-302 | after init: either the phase is generated, the graph is complete and uploaded, and the state buffers are untouched; or the draws ran out, the phase is growing and the device is untouched |
| EpidemicRenderer.Renderer.RunAllSimulations | EphidemicDiffusion/renderer.cpp:171-206 | the kernel's output goes to the buffers bound to slots 3 and 4; the two handles swap; slot 3 is rebound to the new results handle and slot 4 to the new last-results handle; the handles stay distinct; the integer buffers are unchanged; the last-results buffer holds what the kernel wrote as results |
| EpidemicRenderer.TruncateTowardZero | EphidemicDiffusion/renderer.cpp:197-198 | the integer conversion drops the fraction toward zero |
| EpidemicRenderer.DiffusionUniformIsZero | EphidemicDiffusion/renderer.cpp:197-198 | the kernel's `D` uniform is 0 |
| EpidemicRenderer.Renderer.StepTwice | EphidemicDiffusion/renderer.cpp:203-205 | two steps restore both handles and all bindings |
| EpidemicRenderer.Renderer.GetSimulationResults | EphidemicDiffusion/renderer.cpp:151-169 | out of range: the host copy and both output arrays are unchanged. In range: the host copy is the last-results buffer; the infected array is its odd slots and the susceptible array its even slots, when the two arrays are distinct |
| Results.SplitInterleave | EphidemicDiffusion/renderer.cpp:163-166 | splitting a buffer into its two channels loses nothing: interleaving them gives the buffer back |
| EpidemicRenderer.Renderer.GetInfectedCountForStartNode | EphidemicDiffusion/renderer.cpp:308-317 | the count is the number of nodes whose infected value in the last-results buffer is exactly 1 |
| EpidemicRenderer.Renderer.RowVertices | EphidemicDiffusion/renderer.cpp:227-235 | row i yields four coordinates for each adjacent j > i, in column order |
| EpidemicRenderer.Renderer.EdgeVertices | EphidemicDiffusion/renderer.cpp:225-236 | the list holds four coordinates per adjacent pair i < j, in row-major order; its length is 4 times the edge count, which on a consistent graph is twice the degree total |
| Graph.RowSegmentsLength | EphidemicDiffusion/renderer.cpp:227-235 | a row contributes four coordinates per 1 right of the diagonal |
| Graph.SegmentsLength | EphidemicDiffusion/renderer.cpp:225-236 | the edge-vertex list has four coordinates per adjacent pair i < j |

## Left out

- The OpenGL calls themselves are not modelled: buffer generation, the vertex arrays and `free` are left out, and the buffer names are parameters of `Init`. The effects of data upload, binding and read-back are modelled as updates of the `Device` value (`CreateBuffers`, `UploadGraph`, `RunAllSimulations`, `GetSimulationResults`).
- The compute shader is not part of this model, so its transition law is unknown. The kernel is an opaque function parameter. Its results are assumed to have length 2N, and a dispatch completes before the swap.
- The uniform values are modelled as fields of `Dispatch`. `ALFA` is defined outside the renderer files, so it is a parameter of `RunAllSimulations`. The `rand()` seed is a parameter too.
- `rand()` in `generate` is replaced by a finite sequence of draws.
- Generate: it stops and reports when the draws run out; the source's loop has no bound. With unlimited draws the source's loop is not guaranteed to end.
- Floating-point rounding is not modelled. The running sum in `generate`, the state buffers and `clamp` use exact reals.
- Clamp: modelled on reals only (the source's `float`), not generic over ordered types.
- The circular layout (cos/sin with `M_PI` = 3.14) is not modelled. Node positions are parameters of `EdgeVertices`.
- `render`'s drawing calls, `printf`, the copy of the results into the node records, and `setViewMatrix` are not modelled.
- Integer widths are not modelled. With N = 500 every degree, index and total fits easily in 32 bits.
- `m_simulationsRun` is only ever assigned false and is not modelled; `Phase` is the lifecycle flag.
- GetInfectedCountForStartNode: requires the index to be in range, because out of range the source counts over uninitialised arrays.
- Generate: requires `init` to have run, because before it the node list is empty and the source indexes past its end.
- GetSimulationResults: requires `init` to have run, because before it the last-results buffer does not exist.
- Init: requires `startNode + 4 < N`, because the source writes the seeds without bounds checks.
- EphidemicDiffusion.cpp is not part of this model: the window, input, camera and main loop. `StepTwice` shows the repeated-step pattern of its main loop.
- resource_manager.h and the shader and texture loaders are not part of this model.
