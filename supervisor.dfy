/** The supervisor (3coloring/1B/supervisor.c): it creates the shared buffer,
    reads the generators' solutions one by one, keeps the best (fewest removed
    edges) and stops at the first solution that removes no edge at all. */
module Supervisor {
  import opened ThreeColor
  import Ring
  import opened SharedMemory

  /** What overwriteSolutionIfBetter returns (0 stop, 1 better, -1 not better) and
      the best solution afterwards. */
  datatype Decision = Decision(ret: int, best: Solution)

  /** overwriteSolutionIfBetter (supervisor.c:65-78): a solution without edges ends
      the search; a solution with fewer edges than the best replaces it; any other
      leaves the best as it is. */
  function OverwriteSolutionIfBetter(solution: Solution, best: Solution): (d: Decision)
    ensures d.ret == 0 <==> solution.numberOfEdges == 0
    ensures d.ret == 1 <==> solution.numberOfEdges != 0 && solution.numberOfEdges < best.numberOfEdges
    ensures d.ret == -1 <==> solution.numberOfEdges != 0 && solution.numberOfEdges >= best.numberOfEdges
    ensures d.best == if d.ret == 1 then solution else best
    ensures d.best.numberOfEdges <= best.numberOfEdges
  {
    if solution.numberOfEdges == 0 then Decision(0, best)
    else if best.numberOfEdges > solution.numberOfEdges then Decision(1, solution)
    else Decision(-1, best)
  }

  /** `{ .numberOfEdges = MAX_EDGES + 1 }` (supervisor.c:148): worse than any
      solution a generator publishes. */
  function InitialBest(): (b: Solution)
    ensures b.numberOfEdges == MAX_EDGES + 1 && |b.edges| == MAX_EDGES
  {
    Solution(seq(MAX_EDGES, _ => Edge(0, 0)), MAX_EDGES + 1)
  }

  /** The best solution after the supervisor has read `cands` in order. */
  function BestOf(cands: seq<Solution>, best: Solution): Solution {
    if cands == [] then best
    else OverwriteSolutionIfBetter(cands[|cands| - 1], BestOf(cands[..|cands| - 1], best)).best
  }

  /** Over a run of non-empty solutions the best kept is one with the fewest edges
      among the starting best and all solutions read, and it is one of them. */
  lemma {:induction false} BestIsMinimum(cands: seq<Solution>, best: Solution)
    requires forall i :: 0 <= i < |cands| ==> cands[i].numberOfEdges != 0
    ensures BestOf(cands, best).numberOfEdges <= best.numberOfEdges
    ensures forall i :: 0 <= i < |cands| ==> BestOf(cands, best).numberOfEdges <= cands[i].numberOfEdges
    ensures BestOf(cands, best) == best || BestOf(cands, best) in cands
  {
    if cands != [] {
      var p := cands[..|cands| - 1];
      assert forall i :: 0 <= i < |p| ==> p[i] == cands[i];
      BestIsMinimum(p, best);
    }
  }

  /** The first solution a generator publishes always replaces the initial best. */
  lemma FirstPublishedIsKept(solution: Solution)
    requires 0 < solution.numberOfEdges <= MAX_EDGES
    ensures OverwriteSolutionIfBetter(solution, InitialBest()) == Decision(1, solution)
  {
  }

  /** The set-up of main (supervisor.c:134-148). */
  method Start() returns (shm: Shm, best: Solution)
    ensures fresh(shm) && fresh(shm.slots)
    ensures shm.State() == Ring.Initial()
    ensures best == InitialBest()
  {
    shm := new Shm.Create();
    best := InitialBest();
  }

  /** One iteration of the supervisor's loop (supervisor.c:150-158), entered while
      quit is 0 and taken once a solution is available: read the solution at
      readPos and judge it. A solution without edges sets quit and leaves the loop
      with readPos and free as they are; any other advances readPos and posts free,
      which is the consume step of the ring model. */
  method Iteration(shm: Shm, best: Solution) returns (stop: bool, newBest: Solution)
    requires Ring.Bounds(shm.State(), MAX_EDGES) && shm.quit == 0 && shm.usedSem > 0
    modifies shm
    ensures var d := OverwriteSolutionIfBetter(old(shm.slots[shm.readPos]), best);
            stop == (d.ret == 0) && newBest == d.best
    ensures shm.slots == old(shm.slots)
    ensures stop ==> shm.State() == old(shm.State()).(usedSem := old(shm.usedSem) - 1, quit := 1)
    ensures !stop ==> shm.State() == Ring.Consume(old(shm.State()), MAX_EDGES).1
  {
    shm.usedSem := shm.usedSem - 1;
    var d := OverwriteSolutionIfBetter(shm.slots[shm.readPos], best);
    newBest := d.best;
    if d.ret == 0 {
      shm.quit := 1;
      return true, newBest;
    }
    shm.readPos := (shm.readPos + 1) % MAX_EDGES;
    shm.freeSem := shm.freeSem + 1;
    return false, newBest;
  }

  /** handleSignal (supervisor.c:28-30). */
  method HandleSignal(shm: Shm)
    modifies shm
    ensures shm.slots == old(shm.slots)
    ensures shm.State() == old(shm.State()).(quit := 1)
  {
    shm.quit := 1;
  }

  /** closeUp with the region and free mapped (supervisor.c:85-91): set quit and post
      free once per counted generator, the tracker being read as a size_t each time
      round the loop. Semaphore values are unbounded here: a post that would pass
      SEM_VALUE_MAX fails in the source, and postSem then exits. */
  method CloseUp(shm: Shm)
    modifies shm
    ensures shm.slots == old(shm.slots)
    ensures shm.State() == old(shm.State()).(quit := 1, freeSem := old(shm.freeSem) + Ring.FanOut(old(shm.shmTracker)))
  {
    shm.quit := 1;
    var i: nat := 0;
    while i < Ring.FanOut(shm.shmTracker)
      invariant i <= Ring.FanOut(shm.shmTracker)
      invariant shm.freeSem == old(shm.freeSem) + i
      invariant shm.slots == old(shm.slots)
      invariant shm.State() == old(shm.State()).(quit := 1, freeSem := shm.freeSem)
      decreases Ring.FanOut(shm.shmTracker) - i
    {
      shm.freeSem := shm.freeSem + 1;
      i := i + 1;
    }
  }
}
