/** The non-graphics state of the epidemic renderer: it grows a contact
    network by preferential attachment, seeds an interleaved
    susceptible/infected buffer, and advances the simulation by dispatching a
    compute kernel over two state buffers whose handles it swaps after every
    step. The GPU is modelled as a `Device` value: buffer contents by handle
    and the handles bound to the shader storage slots. */
module EpidemicRenderer {
  import opened Counting
  import opened Graph
  import opened Results
  import opened Construction

  /** `clamp` of renderer.cpp, on the reals: below the range gives the lower
      bound, above it the upper bound, otherwise the value itself. */
  function Clamp(x: real, minVal: real, maxVal: real): (r: real)
    ensures r == x || r == minVal || r == maxVal
    ensures x < minVal ==> r == minVal
    ensures minVal <= x <= maxVal ==> r == x
    ensures minVal <= x && maxVal < x ==> r == maxVal
    ensures minVal <= maxVal ==> minVal <= r <= maxVal
  {
    if x < minVal then minVal
    else if x > maxVal then maxVal
    else x
  }

  /** Clamping twice is clamping once. */
  lemma ClampIdempotent(x: real, minVal: real, maxVal: real)
    requires minVal <= maxVal
    ensures Clamp(Clamp(x, minVal, maxVal), minVal, maxVal) == Clamp(x, minVal, maxVal)
  {
  }

  /** Where the renderer is in the call order init, generate, then steps. */
  datatype Phase =
    | Constructed   // constructor has run; no graph yet
    | Initialized   // the seed clique is built and the buffers exist
    | Growing       // preferential attachment in progress
    | Generated     // the network is complete; steps may run

  /** GPU-side memory: integer buffers (adjacency, degrees) and float
      buffers (the two state buffers) by handle, and the handle bound to each
      shader storage slot. */
  datatype Device = Device(ints: map<nat, seq<int>>, floats: map<nat, seq<real>>, bindings: map<nat, nat>)

  /** The sizes renderer.h fixes: N nodes, a seed clique of M0 nodes and M
      edges per later node. */
  const N: nat := 500
  const M0: nat := 4
  const M: nat := 4

  /** Those sizes meet the constructor's requirements, and the start node
      the program uses, 0, leaves room for the three seeds. */
  lemma SourceSizes()
    ensures 2 <= M0 <= N && 1 <= M <= M0
    ensures 0 + 4 < N
  {
  }

  /** The infection rate handed to the kernel (`BETA` in renderer.h). */
  const Beta: real := 0.05

  /** The diffusion constant of renderer.h (`D`). */
  const Diffusion: real := 0.4

  /** C's conversion of a floating value to an integer: drop the fraction,
      rounding toward zero. */
  function TruncateTowardZero(x: real): (r: int)
    ensures x >= 0.0 ==> r as real <= x < r as real + 1.0
    ensures x < 0.0 ==> r as real - 1.0 < x <= r as real
  {
    if x >= 0.0 then x.Floor else -((-x).Floor)
  }

  /** `D` is passed with the integer uniform setter, so the kernel sees its
      truncation, which is 0. */
  lemma DiffusionUniformIsZero()
    ensures TruncateTowardZero(Diffusion) == 0
  {
  }

  /** What one compute dispatch can read: the buffers bound to slots 1 to 4
      and the uniforms set before it. */
  datatype Dispatch = Dispatch(
    adjacency: seq<int>, degrees: seq<int>, results: seq<real>, lastResults: seq<real>,
    infectionRate: real, alfa: real, dt: real, totalTime: real, nodeCount: int,
    randomSeed: nat, startNodeIndex: int, diffusion: int)

  /** The contents a dispatch leaves in the buffers bound to slots 3 and 4. */
  datatype Written = Written(results: seq<real>, lastResults: seq<real>)

  class Renderer {
    const n: nat             // N, the number of nodes
    const m0: nat            // M0, the size of the seed clique
    const m: nat             // M, edges attached per new node
    const startNode: int
    const nodePool: array<int>      // degree of every node
    var edgeList: seq<seq<int>>     // row a is node a's edge_list
    var totalDegree: int
    var phase: Phase
    var adjacencySSBO: nat
    var degreeSSBO: nat
    var resultsSSBO: nat
    var lastResultsSSBO: nat
    var device: Device
    var resultsData: seq<real>      // host copy of the initial results
    var lastResults: seq<real>      // host copy of the last read-back

    /** The four buffers exist, are distinct, have their sizes, and slots
        1 to 4 hold adjacency, degrees, results and last results. */
    ghost predicate BuffersReady()
      reads this`adjacencySSBO, this`degreeSSBO, this`resultsSSBO, this`lastResultsSSBO
      reads this`device, this`resultsData, this`lastResults
    {
      adjacencySSBO != 0 && degreeSSBO != 0 && resultsSSBO != 0 && lastResultsSSBO != 0 &&
      adjacencySSBO != degreeSSBO && adjacencySSBO != resultsSSBO && adjacencySSBO != lastResultsSSBO &&
      degreeSSBO != resultsSSBO && degreeSSBO != lastResultsSSBO && resultsSSBO != lastResultsSSBO &&
      adjacencySSBO in device.ints && degreeSSBO in device.ints &&
      resultsSSBO in device.floats && lastResultsSSBO in device.floats &&
      |device.floats[resultsSSBO]| == 2 * n && |device.floats[lastResultsSSBO]| == 2 * n &&
      device.bindings == map[1 := adjacencySSBO, 2 := degreeSSBO, 3 := resultsSSBO, 4 := lastResultsSSBO] &&
      |resultsData| == 2 * n && |lastResults| == 2 * n
    }

    /** The graph invariant over the fields. */
    ghost predicate Consistent()
      reads this`edgeList, this`totalDegree, nodePool
    {
      |edgeList| == n && GraphOk(edgeList, nodePool[..], totalDegree)
    }

    /** The adjacency and degree buffers hold the current graph. */
    ghost predicate Uploaded()
      reads this`adjacencySSBO, this`degreeSSBO, this`resultsSSBO, this`lastResultsSSBO
      reads this`device, this`resultsData, this`lastResults, this`edgeList, nodePool
      requires BuffersReady()
    {
      device.ints[adjacencySSBO] == Flatten(edgeList) && device.ints[degreeSSBO] == nodePool[..]
    }

    /** The graph `init` leaves: exactly the pairs of distinct nodes below
        M0 are adjacent and each of them has degree M0 - 1. */
    ghost predicate SeedClique()
      reads this`edgeList, this`totalDegree, nodePool
    {
      Consistent() && totalDegree == m0 * (m0 - 1) &&
      (forall a, b :: 0 <= a < n && 0 <= b < n ==>
         edgeList[a][b] == if a < m0 && b < m0 && a != b then 1 else 0) &&
      forall a :: 0 <= a < n ==> nodePool[a] == if a < m0 then m0 - 1 else 0
    }

    /** The graph `generate` leaves: it keeps the seed clique, every node from
        M0 on has exactly M neighbours of lower index, the total counts
        M0 * (M0 - 1) for the clique and 2 * M per later node. */
    ghost predicate Complete()
      reads this`edgeList, this`totalDegree, nodePool
    {
      Consistent() && SeedKept(edgeList, n, m0) && LowerDegrees(edgeList, m0, m, n) &&
      totalDegree == m0 * (m0 - 1) + 2 * m * (n - m0)
    }

    /** The class invariant, by phase: after `init` the graph is the seed
        clique; while growing it is a consistent graph that keeps the clique;
        once generated it is complete. */
    ghost predicate Valid()
      reads this, nodePool
    {
      nodePool.Length == n && 2 <= m0 <= n && 1 <= m <= m0 &&
      (phase == Constructed ==>
        edgeList == [] && totalDegree == 0 && forall a :: 0 <= a < n ==> nodePool[a] == 0) &&
      (phase != Constructed ==> |edgeList| == n && Square(edgeList) && BuffersReady()) &&
      (phase == Initialized ==> SeedClique() && Uploaded()) &&
      (phase == Growing ==> Consistent() && SeedKept(edgeList, n, m0)) &&
      (phase == Generated ==> Complete() && Uploaded())
    }

    /** The constructor: sizes as parameters, the degree array zeroed and
        the degree total reset. */
    constructor (n: nat, m0: nat, m: nat, startNode: int)
      requires 2 <= m0 <= n && 1 <= m <= m0
      ensures Valid() && phase == Constructed && fresh(nodePool)
      ensures this.n == n && this.m0 == m0 && this.m == m && this.startNode == startNode
      ensures totalDegree == 0
    {
      this.n, this.m0, this.m, this.startNode := n, m0, m, startNode;
      nodePool := new int[n](_ => 0);
      edgeList := [];
      totalDegree := 0;
      phase := Constructed;
      device := Device(map[], map[], map[]);
      resultsData, lastResults := [], [];
    }

    /** First loop of `init`: the matrix sized N x N, then every row and
        every degree set to 0. */
    method ZeroGraph()
      requires nodePool.Length == n
      modifies this`edgeList, nodePool
      ensures |edgeList| == n && Square(edgeList) && GraphOk(edgeList, nodePool[..], 0)
      ensures forall a, b :: 0 <= a < n && 0 <= b < n ==> edgeList[a][b] == 0
      ensures forall a :: 0 <= a < n ==> nodePool[a] == 0
    {
      edgeList := seq(n, _ => seq(n, _ => 0));
      for i := 0 to n
        invariant |edgeList| == n && Square(edgeList)
        invariant forall a, b :: 0 <= a < n && 0 <= b < n ==> edgeList[a][b] == 0
        invariant forall a :: 0 <= a < i ==> nodePool[a] == 0
      {
        nodePool[i] := 0;
        edgeList := edgeList[i := seq(n, _ => 0)];
      }
      EmptyGraph(edgeList, nodePool[..]);
    }

    /** Second loop of `init`: connect every pair i < j below M0, updating
        both directions, both degrees and the total as `add_node` does. */
    method BuildSeedClique()
      requires nodePool.Length == n && m0 <= n && |edgeList| == n && GraphOk(edgeList, nodePool[..], totalDegree)
      requires forall a, b :: 0 <= a < n && 0 <= b < n ==> edgeList[a][b] == 0
      requires forall a :: 0 <= a < n ==> nodePool[a] == 0
      requires totalDegree == 0
      modifies this`edgeList, this`totalDegree, nodePool
      ensures |edgeList| == n && GraphOk(edgeList, nodePool[..], totalDegree)
      ensures forall a, b :: 0 <= a < n && 0 <= b < n ==>
                edgeList[a][b] == if a < m0 && b < m0 && a != b then 1 else 0
      ensures forall a :: 0 <= a < n ==> nodePool[a] == if a < m0 then m0 - 1 else 0
      ensures totalDegree == m0 * (m0 - 1)
    {
      CliqueStart(edgeList, nodePool[..], n, m0);
      for i := 0 to m0
        invariant CliqueState(edgeList, nodePool[..], totalDegree, n, m0, i, i + 1)
      {
        ConnectLaterSeeds(i);
        CliqueNextRow(edgeList, nodePool[..], totalDegree, n, m0, i);
      }
      CliqueComplete(edgeList, nodePool[..], totalDegree, n, m0);
    }

    /** `add_node`: set both directions of the pair to 1, increment both
        degrees and grow the total by two. */
    method AddNode(i: nat, j: nat)
      requires nodePool.Length == n && |edgeList| == n && Square(edgeList) && i < n && j < n
      modifies this`edgeList, this`totalDegree, nodePool
      ensures edgeList == Link(old(edgeList), i, j)
      ensures nodePool[..] == Bump(old(nodePool[..]), i, j)
      ensures totalDegree == old(totalDegree) + 2
      ensures old(Consistent()) && i != j && old(edgeList[i][j]) == 0 ==> Consistent()
    {
      if Consistent() && i != j && edgeList[i][j] == 0 {
        LinkKeepsGraph(edgeList, nodePool[..], totalDegree, i, j);
      }
      edgeList := edgeList[i := edgeList[i][j := 1]];
      edgeList := edgeList[j := edgeList[j][i := 1]];
      nodePool[i] := nodePool[i] + 1;
      nodePool[j] := nodePool[j] + 1;
      totalDegree := totalDegree + 2;
    }

    /** The inner loop of the seed clique: connect node `i` to every node
        from `i + 1` up to M0 - 1. */
    method ConnectLaterSeeds(i: nat)
      requires nodePool.Length == n && i < m0 <= n
      requires CliqueState(edgeList, nodePool[..], totalDegree, n, m0, i, i + 1)
      modifies this`edgeList, this`totalDegree, nodePool
      ensures CliqueState(edgeList, nodePool[..], totalDegree, n, m0, i, m0)
    {
      for j := i + 1 to m0
        invariant CliqueState(edgeList, nodePool[..], totalDegree, n, m0, i, j)
      {
        ConnectSeedPair(i, j);
      }
    }

    /** One pass of the seed-clique inner loop: link the pair (i, j). */
    method ConnectSeedPair(i: nat, j: nat)
      requires nodePool.Length == n && i < j < m0 <= n
      requires CliqueState(edgeList, nodePool[..], totalDegree, n, m0, i, j)
      modifies this`edgeList, this`totalDegree, nodePool
      ensures CliqueState(edgeList, nodePool[..], totalDegree, n, m0, i, j + 1)
    {
      CliqueStep(edgeList, nodePool[..], totalDegree, n, m0, i, j);
      AddNode(i, j);
    }

    /** The buffer part of `init`: the adjacency buffer gets the flattened
        matrix and the degree buffer the degrees; the results buffer gets
        the seeded initial state and the last-results buffer zeros; slots 1
        to 4 are bound to the four buffers in that order. */
    method CreateBuffers(adjacencyHandle: nat, degreeHandle: nat, resultsHandle: nat, lastResultsHandle: nat)
      requires 0 <= startNode && startNode + 4 < n
      requires adjacencyHandle != 0 && degreeHandle != 0 && resultsHandle != 0 && lastResultsHandle != 0
      requires adjacencyHandle != degreeHandle && adjacencyHandle != resultsHandle
      requires adjacencyHandle != lastResultsHandle && degreeHandle != resultsHandle
      requires degreeHandle != lastResultsHandle && resultsHandle != lastResultsHandle
      modifies this`adjacencySSBO, this`degreeSSBO, this`resultsSSBO, this`lastResultsSSBO
      modifies this`resultsData, this`lastResults, this`device
      ensures BuffersReady() && Uploaded()
      ensures adjacencySSBO == adjacencyHandle && degreeSSBO == degreeHandle
      ensures resultsSSBO == resultsHandle && lastResultsSSBO == lastResultsHandle
      ensures device.ints == map[adjacencyHandle := Flatten(edgeList), degreeHandle := nodePool[..]]
      ensures device.floats == map[resultsHandle := resultsData, lastResultsHandle := lastResults]
      ensures Seeded(resultsData, n, startNode)
      ensures |lastResults| == 2 * n && forall t :: 0 <= t < |lastResults| ==> lastResults[t] == 0.0
    {
      var adjacencyMatrix := Flatten(edgeList);
      var degrees := nodePool[..];
      var seeded := SeedResults(n, startNode);
      var zeros := seq(2 * n, _ => 0.0);
      adjacencySSBO, degreeSSBO, resultsSSBO, lastResultsSSBO :=
        adjacencyHandle, degreeHandle, resultsHandle, lastResultsHandle;
      resultsData, lastResults := seeded, zeros;
      device := Device(
        map[adjacencyHandle := adjacencyMatrix, degreeHandle := degrees],
        map[resultsHandle := seeded, lastResultsHandle := zeros],
        map[1 := adjacencyHandle, 2 := degreeHandle, 3 := resultsHandle, 4 := lastResultsHandle]);
    }

    /** `init` without its graphics: zero the matrix and degrees, build the
        seed clique, then create and fill the four buffers. The GL buffer
        names are parameters. */
    method Init(adjacencyHandle: nat, degreeHandle: nat, resultsHandle: nat, lastResultsHandle: nat)
      requires Valid() && phase == Constructed
      requires 0 <= startNode && startNode + 4 < n
      requires adjacencyHandle != 0 && degreeHandle != 0 && resultsHandle != 0 && lastResultsHandle != 0
      requires adjacencyHandle != degreeHandle && adjacencyHandle != resultsHandle
      requires adjacencyHandle != lastResultsHandle && degreeHandle != resultsHandle
      requires degreeHandle != lastResultsHandle && resultsHandle != lastResultsHandle
      modifies this, nodePool
      ensures Valid() && phase == Initialized && BuffersReady() && SeedClique()
      ensures adjacencySSBO == adjacencyHandle && degreeSSBO == degreeHandle
      ensures resultsSSBO == resultsHandle && lastResultsSSBO == lastResultsHandle
      ensures device.ints == map[adjacencySSBO := Flatten(edgeList), degreeSSBO := nodePool[..]]
      ensures device.floats == map[resultsSSBO := resultsData, lastResultsSSBO := lastResults]
      ensures Seeded(resultsData, n, startNode)
      ensures forall t :: 0 <= t < |lastResults| ==> lastResults[t] == 0.0
    {
      ZeroGraph();
      BuildSeedClique();
      CreateBuffers(adjacencyHandle, degreeHandle, resultsHandle, lastResultsHandle);
      phase := Initialized;
    }

    /** One draw of `generate` for node `i`: walk the nodes below `i`,
        adding each one's share of the degree total to a running sum; the
        first node whose running sum has passed `p` and that is not yet
        adjacent to `i` is linked to `i` and the walk stops. An adjacent node
        does not stop the walk, and the walk can reach `i` and add nothing. */
    method Attempt(i: nat, p: real) returns (added: bool, target: nat)
      requires nodePool.Length == n && |edgeList| == n && Square(edgeList) && i < n && totalDegree > 0
      modifies this`edgeList, this`totalDegree, nodePool
      ensures added ==> target < i && Eligible(old(edgeList), old(nodePool[..]), old(totalDegree), i, p, target)
      ensures added ==> forall k :: 0 <= k < target ==> !Eligible(old(edgeList), old(nodePool[..]), old(totalDegree), i, p, k)
      ensures added ==> edgeList == Link(old(edgeList), target, i) &&
                        nodePool[..] == Bump(old(nodePool[..]), target, i) &&
                        totalDegree == old(totalDegree) + 2
      ensures !added ==> forall k :: 0 <= k < i ==> !Eligible(old(edgeList), old(nodePool[..]), old(totalDegree), i, p, k)
      ensures !added ==> edgeList == old(edgeList) && nodePool[..] == old(nodePool[..]) && totalDegree == old(totalDegree)
    {
      ghost var adj, pool, total := edgeList, nodePool[..], totalDegree;
      added, target := false, 0;
      var cumulative := 0.0;
      for j := 0 to i
        invariant edgeList == adj && nodePool[..] == pool && totalDegree == total
        invariant cumulative == Sum(pool[..j]) as real / total as real
        invariant forall k :: 0 <= k < j ==> !Eligible(adj, pool, total, i, p, k)
      {
        cumulative := cumulative + nodePool[j] as real / totalDegree as real;
        ShareStep(pool, total, j);
        if p < cumulative {
          if edgeList[j][i] == 0 {
            AddNode(j, i);
            added, target := true, j;
            return;
          }
        }
      }
    }

    /** `generate`: attach every node from M0 to N - 1 to M distinct lower
        nodes, one draw per attempt, then upload the matrix and the degrees.
        The draws are the values `rand() / RAND_MAX` would give, in order;
        if they run out before every node has its M edges, generation stops
        there and reports it. */
    method Generate(draws: seq<real>) returns (complete: bool, used: nat)
      requires Valid() && phase == Initialized
      modifies this`edgeList, this`totalDegree, nodePool, this`phase, this`device
      ensures Valid() && used <= |draws|
      ensures complete <==> phase == Generated
      ensures !complete ==> phase == Growing && used == |draws| && device == old(device)
      ensures complete ==> device.floats == old(device.floats) && device.bindings == old(device.bindings)
    {
      phase := Growing;
      complete, used := GrowNetwork(draws);
      if complete {
        UploadGraph();
        phase := Generated;
      }
    }

    /** The attachment loops of `generate`, nodes M0 to N - 1 in order. */
    method GrowNetwork(draws: seq<real>) returns (complete: bool, used: nat)
      requires nodePool.Length == n && 2 <= m0 <= n
      requires SeedClique()
      modifies this`edgeList, this`totalDegree, nodePool
      ensures used <= |draws|
      ensures complete ==> Complete()
      ensures !complete ==> used == |draws| && Consistent() && SeedKept(edgeList, n, m0)
    {
      SeedIsBefore(edgeList, nodePool[..], totalDegree, n, m0, m);
      used := 0;
      for i := m0 to n
        invariant used <= |draws|
        invariant Before(edgeList, nodePool[..], totalDegree, n, m0, m, i)
      {
        var attached;
        attached, used := AttachNode(i, draws, used);
        if !attached {
          return false, used;
        }
      }
      complete := true;
    }

    /** The upload at the end of `generate`: when a buffer exists, it gets
        the flattened matrix or the degrees. */
    method UploadGraph()
      requires BuffersReady()
      modifies this`device
      ensures BuffersReady() && Uploaded()
      ensures device.floats == old(device.floats) && device.bindings == old(device.bindings)
      ensures device.ints == old(device.ints)[adjacencySSBO := Flatten(edgeList)][degreeSSBO := nodePool[..]]
    {
      if adjacencySSBO != 0 {
        device := device.(ints := device.ints[adjacencySSBO := Flatten(edgeList)]);
      }
      if degreeSSBO != 0 {
        device := device.(ints := device.ints[degreeSSBO := nodePool[..]]);
      }
    }

    /** The body of `generate`'s outer loop for node `i`: draw until the
        node has M edges, starting at draw `start`. Running out of draws
        leaves a consistent graph that still holds the seed clique. */
    method AttachNode(i: nat, draws: seq<real>, start: nat) returns (attached: bool, used: nat)
      requires nodePool.Length == n && i < n && start <= |draws|
      requires Before(edgeList, nodePool[..], totalDegree, n, m0, m, i)
      modifies this`edgeList, this`totalDegree, nodePool
      ensures start <= used <= |draws|
      ensures attached ==> Before(edgeList, nodePool[..], totalDegree, n, m0, m, i + 1)
      ensures !attached ==> used == |draws|
      ensures !attached ==> |edgeList| == n && GraphOk(edgeList, nodePool[..], totalDegree)
      ensures !attached ==> SeedKept(edgeList, n, m0)
      ensures OnlyNodeLinked(old(edgeList), old(nodePool[..]), edgeList, nodePool[..], n, i)
    {
      AttachBegin(edgeList, nodePool[..], totalDegree, n, m0, m, i);
      OnlyNodeLinkedBegin(edgeList, nodePool[..], totalDegree, n, m0, m, i);
      ghost var adj0, pool0 := edgeList, nodePool[..];
      used := start;
      var edgesAdded := 0;
      while edgesAdded < m
        invariant start <= used <= |draws| && edgesAdded <= m
        invariant Attaching(edgeList, nodePool[..], totalDegree, n, m0, m, i, edgesAdded)
        invariant OnlyNodeLinked(adj0, pool0, edgeList, nodePool[..], n, i)
        decreases |draws| - used
      {
        if used == |draws| {
          return false, used;
        }
        var p := draws[used];
        used := used + 1;
        ghost var adj, pool, total := edgeList, nodePool[..], totalDegree;
        TotalPositive(m0, m, i, edgesAdded);
        var added, target := Attempt(i, p);
        if added {
          AttachStep(adj, pool, total, n, m0, m, i, edgesAdded, target);
          OnlyNodeLinkedStep(adj0, pool0, adj, pool, n, i, target);
          edgesAdded := edgesAdded + 1;
        }
      }
      AttachEnd(edgeList, nodePool[..], totalDegree, n, m0, m, i);
      attached := true;
    }

    /** `runAllSimulations`: one dispatch of the compute kernel over the
        buffers bound to slots 1 to 4, then the two state handles swap and
        are rebound, so the buffer the kernel just wrote as "results" is
        the one read back as "last results". */
    method RunAllSimulations(dt: real, alfa: real, randomSeed: nat, kernel: Dispatch -> Written)
      requires Valid() && phase == Generated
      requires forall d :: |kernel(d).results| == 2 * n && |kernel(d).lastResults| == 2 * n
      modifies this`resultsSSBO, this`lastResultsSSBO, this`device
      ensures Valid() && phase == Generated
      ensures resultsSSBO == old(lastResultsSSBO) && lastResultsSSBO == old(resultsSSBO)
      ensures device.bindings[3] == resultsSSBO && device.bindings[4] == lastResultsSSBO
      ensures device.ints == old(device.ints)
      ensures var w := kernel(Dispatch(
                old(device.ints[adjacencySSBO]), old(device.ints[degreeSSBO]),
                old(device.floats[resultsSSBO]), old(device.floats[lastResultsSSBO]),
                Beta, alfa, dt, dt, n, randomSeed, startNode, TruncateTowardZero(Diffusion)));
              device.floats == old(device.floats)[old(resultsSSBO) := w.results][old(lastResultsSSBO) := w.lastResults] &&
              device.floats[lastResultsSSBO] == w.results
    {
      var input := Dispatch(
        device.ints[device.bindings[1]], device.ints[device.bindings[2]],
        device.floats[device.bindings[3]], device.floats[device.bindings[4]],
        Beta, alfa, dt, dt, n, randomSeed, startNode, TruncateTowardZero(Diffusion));
      var w := kernel(input);
      device := device.(floats := device.floats[device.bindings[3] := w.results][device.bindings[4] := w.lastResults]);
      resultsSSBO, lastResultsSSBO := lastResultsSSBO, resultsSSBO;
      device := device.(bindings := device.bindings[3 := resultsSSBO]);
      device := device.(bindings := device.bindings[4 := lastResultsSSBO]);
    }

    /** Two steps in a row put the handles and the bindings back where they
        were: the kernel alternates between the two state buffers. */
    method StepTwice(dt: real, alfa: real, firstSeed: nat, secondSeed: nat, kernel: Dispatch -> Written)
      requires Valid() && phase == Generated
      requires forall d :: |kernel(d).results| == 2 * n && |kernel(d).lastResults| == 2 * n
      modifies this`resultsSSBO, this`lastResultsSSBO, this`device
      ensures Valid() && phase == Generated
      ensures resultsSSBO == old(resultsSSBO) && lastResultsSSBO == old(lastResultsSSBO)
      ensures device.bindings == old(device.bindings) && device.ints == old(device.ints)
    {
      RunAllSimulations(dt, alfa, firstSeed, kernel);
      RunAllSimulations(dt, alfa, secondSeed, kernel);
    }

    /** `getSimulationResults`: for a node index in range, read the
        last-results buffer back into the host copy and split it into the
        susceptible and infected values of every node; for any other index,
        do nothing. */
    method GetSimulationResults(node: int, susceptibleStates: array<real>, infectedStates: array<real>)
      requires Valid() && phase != Constructed
      requires susceptibleStates.Length == n && infectedStates.Length == n
      modifies this`lastResults, susceptibleStates, infectedStates
      ensures Valid()
      ensures !(0 <= node < n) ==>
                lastResults == old(lastResults) && unchanged(susceptibleStates) && unchanged(infectedStates)
      ensures 0 <= node < n ==>
                lastResults == device.floats[lastResultsSSBO] && infectedStates[..] == Infected(lastResults)
      ensures 0 <= node < n && susceptibleStates != infectedStates ==>
                susceptibleStates[..] == Susceptible(lastResults)
    {
      if node < 0 || node >= n {
        return;
      }
      lastResults := device.floats[lastResultsSSBO];
      for i := 0 to n
        invariant lastResults == device.floats[lastResultsSSBO]
        invariant forall k :: 0 <= k < i ==> infectedStates[k] == lastResults[k * 2 + 1]
        invariant susceptibleStates != infectedStates ==>
                    forall k :: 0 <= k < i ==> susceptibleStates[k] == lastResults[k * 2]
      {
        susceptibleStates[i] := lastResults[i * 2];
        infectedStates[i] := lastResults[i * 2 + 1];
      }
    }

    /** `getInfectedCountForStartNode`: read the results back and count the
        nodes whose infected value is exactly 1. */
    method GetInfectedCountForStartNode(node: int) returns (count: int)
      requires Valid() && phase != Constructed && 0 <= node < n
      modifies this`lastResults
      ensures Valid() && lastResults == device.floats[lastResultsSSBO]
      ensures count == Occurrences(Infected(device.floats[lastResultsSSBO]), 1.0)
    {
      var susceptible := new real[n];
      var infected := new real[n];
      GetSimulationResults(node, susceptible, infected);
      ghost var readBack := lastResults;
      count := 0;
      for i := 0 to n
        invariant lastResults == readBack && infected[..] == Infected(readBack)
        invariant count == Occurrences(infected[..i], 1.0)
      {
        OccurrencesSnoc(infected[..], i, 1.0);
        assert infected[..i + 1] == infected[..][..i + 1];
        if infected[i] == 1.0 {
          count := count + 1;
        }
      }
      assert infected[..n] == infected[..];
    }

    /** The inner edge loop of `render` for row `i`: the coordinates of
        node `i` and of node `j` for every adjacent `j > i`, in order. */
    method RowVertices(i: nat, xs: seq<real>, ys: seq<real>) returns (row: seq<real>)
      requires |edgeList| == n && Square(edgeList) && i < n && |xs| == n && |ys| == n
      ensures row == RowSegments(edgeList, xs, ys, i, n)
      ensures |row| == 4 * Occurrences(edgeList[i][i + 1..], 1)
    {
      row := [];
      for j := i + 1 to n
        invariant row == RowSegments(edgeList, xs, ys, i, j)
      {
        if edgeList[i][j] == 1 {
          row := row + [xs[i], ys[i], xs[j], ys[j]];
        }
      }
      RowSegmentsLength(edgeList, xs, ys, i, n);
      assert edgeList[i][i + 1..n] == edgeList[i][i + 1..];
    }

    /** The edge loop of `render`: for every adjacent pair i < j, in
        row-major order, the coordinates of node i then of node j. Node
        positions come from the layout and are parameters here. */
    method EdgeVertices(xs: seq<real>, ys: seq<real>) returns (v: seq<real>)
      requires |edgeList| == n && Square(edgeList) && |xs| == n && |ys| == n
      ensures v == EdgeSegments(edgeList, xs, ys)
      ensures |v| == 4 * EdgeCount(edgeList)
      ensures Consistent() ==> |v| == 2 * totalDegree
    {
      v := [];
      for i := 0 to n
        invariant v == SegmentsUpTo(edgeList, xs, ys, i)
      {
        var row := RowVertices(i, xs, ys);
        v := v + row;
      }
      SegmentsLength(edgeList, xs, ys, n);
    }
  }
}
