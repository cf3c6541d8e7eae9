/** The types and bounds shared by the generator and the supervisor (3coloring/3color.h). */
module ThreeColor {

  /** Number of solution slots in the shared buffer. */
  const MAX_DATA: nat := 50

  /** Largest number of removed edges a published solution may hold. */
  const MAX_EDGES: nat := 8

  /** A node of the graph and its current colour (0, 1 or 2 once coloured). */
  datatype Node = Node(nodeIdx: int, color: int)

  datatype Edge = Edge(firstNode: int, secondNode: int)

  /** solution_t: a fixed array of MAX_EDGES edges of which the first
      `numberOfEdges` are meaningful; it is copied by value into and out of the
      shared buffer. */
  datatype Solution = Solution(edges: seq<Edge>, numberOfEdges: int)

  /** A zero-initialised solution_t, as `{.numberOfEdges = 0}` and ftruncate give. */
  function ZeroSolution(): (s: Solution)
    ensures |s.edges| == MAX_EDGES && s.numberOfEdges == 0
  {
    Solution(seq(MAX_EDGES, _ => Edge(0, 0)), 0)
  }
}
