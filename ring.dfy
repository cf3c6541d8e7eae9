/** Value-level model of the shared region (shm_t in 3coloring/3color.h) together
    with its three semaphores, the generator's publish step and the supervisor's
    consume step. Processes are not modelled: each semaphore-protected operation is
    one atomic step, and a wait that would block is a precondition of the step.

    The cursor modulus is a parameter so that the source (which wraps both cursors
    modulo MAX_EDGES) and the evidently intended ring (modulo MAX_DATA, the number
    of slots) are told apart by the same definitions. */
module Ring {
  import opened ThreeColor
  import opened CStrings

  /** size_t on an LP64 platform holds values modulo 2^64. */
  const SIZE_T_MODULUS: nat := 0x1_0000_0000_0000_0000

  /** shm_t plus the values of the free, used and write-mutex semaphores. */
  datatype Shared = Shared(slots: seq<Solution>, quit: int, write: int, readPos: int,
                           shmTracker: int, freeSem: int, usedSem: int, writeSem: int)

  /** The state the supervisor sets up before any generator attaches, for a region
      and semaphores created fresh: an all-zero region and semaphores created with
      50, 0 and 1. */
  function Initial(): Shared {
    Shared(seq(MAX_DATA, _ => ZeroSolution()), 0, 0, 0, 0, MAX_DATA, 0, 1)
  }

  /** `(pos + 1) % modulus`, the way both cursors move. */
  function Advance(pos: int, modulus: nat): (r: int)
    requires modulus > 0
    ensures 0 <= r < modulus
    ensures -1 <= pos < modulus - 1 ==> r == pos + 1
    ensures pos == modulus - 1 ==> r == 0
  {
    (pos + 1) % modulus
  }

  /** What every state between two complete steps satisfies when the cursors wrap
      modulo m: the buffer has its 50 slots, both cursors are below m, no semaphore
      is negative, the write mutex is free and quit is a flag. */
  predicate Bounds(s: Shared, m: nat) {
    && |s.slots| == MAX_DATA && 0 < m <= MAX_DATA
    && 0 <= s.write < m && 0 <= s.readPos < m
    && s.freeSem >= 0 && s.usedSem >= 0 && s.writeSem == 1
    && (s.quit == 0 || s.quit == 1)
  }

  /** Every slot is either free or holds an unread solution. */
  predicate Conserved(s: Shared) {
    s.usedSem + s.freeSem == MAX_DATA
  }

  /** writeToSolutionBuffer (generator.c:223-232): wait on the write mutex and on
      free, store into slots[write], advance write, post used and the mutex.
      (waitSem in semaphore.c:51-58 returns from a wait interrupted by a signal
      without having acquired the semaphore; that path is not modelled.) */
  function Publish(s: Shared, sol: Solution, m: nat): (r: Shared)
    requires Bounds(s, m) && s.freeSem > 0
    ensures Bounds(r, m)
    ensures r.usedSem + r.freeSem == s.usedSem + s.freeSem
    ensures r.slots[s.write] == sol
    ensures forall i :: 0 <= i < |s.slots| && i != s.write ==> r.slots[i] == s.slots[i]
  {
    s.(slots := s.slots[s.write := sol], write := Advance(s.write, m),
       freeSem := s.freeSem - 1, usedSem := s.usedSem + 1)
  }

  /** One non-terminal iteration of the supervisor loop as seen by the buffer
      (supervisor.c:151, 152, 155, 157): wait on used, read slots[readPos], advance
      readPos, post free. */
  function Consume(s: Shared, m: nat): (r: (Solution, Shared))
    requires Bounds(s, m) && s.usedSem > 0
    ensures Bounds(r.1, m)
    ensures r.1.usedSem + r.1.freeSem == s.usedSem + s.freeSem
    ensures r.0 == s.slots[s.readPos] && r.1.slots == s.slots && r.1.write == s.write
  {
    (s.slots[s.readPos],
     s.(usedSem := s.usedSem - 1, readPos := Advance(s.readPos, m), freeSem := s.freeSem + 1))
  }

  /** The supervisor's post loop `for (size_t i = 0; i < shmTracker; i++)` compares
      a size_t with an int, so the tracker is converted to size_t first. */
  function FanOut(tracker: int): (n: nat)
    ensures 0 <= tracker < SIZE_T_MODULUS ==> n == tracker
    ensures -(SIZE_T_MODULUS as int) <= tracker < 0 ==> n == tracker + SIZE_T_MODULUS
  {
    tracker % SIZE_T_MODULUS
  }

  lemma InitialIsSound()
    ensures Bounds(Initial(), MAX_EDGES) && Bounds(Initial(), MAX_DATA)
    ensures Conserved(Initial()) && Initial().usedSem == 0
  {
  }

  // ---------------------------------------------------------------------------
  // Sequences of steps

  datatype Op = Pub(sol: Solution) | Con

  /** Runs publish and consume steps in order; None if some step would block. The
      result holds the final state and the solutions the consumer read, in order. */
  function Run(s: Shared, ops: seq<Op>, m: nat): (r: Option<(Shared, seq<Solution>)>)
    requires Bounds(s, m)
    ensures r.Some? ==> Bounds(r.value.0, m) && |r.value.1| <= |ops|
    decreases |ops|
  {
    if ops == [] then Some((s, []))
    else match ops[0]
      case Pub(sol) =>
        if s.freeSem > 0 then Run(Publish(s, sol, m), ops[1..], m) else None
      case Con =>
        if s.usedSem > 0 then ReadFirst(s.slots[s.readPos], Run(Consume(s, m).1, ops[1..], m))
        else None
  }

  /** Puts the solution read by a consume step in front of what the rest of a run
      reads. */
  function ReadFirst(x: Solution, r: Option<(Shared, seq<Solution>)>): Option<(Shared, seq<Solution>)> {
    if r.None? then None else Some((r.value.0, [x] + r.value.1))
  }

  /** The solutions a trace publishes, in order. */
  function Published(ops: seq<Op>): seq<Solution>
    decreases |ops|
  {
    if ops == [] then []
    else (if ops[0].Pub? then [ops[0].sol] else []) + Published(ops[1..])
  }

  /** Over any sequence of publish and consume steps the bounds are kept (both
      cursors stay below the modulus), used + free stays MAX_DATA, and used counts
      the publishes not yet consumed. */
  lemma {:induction false} RunKeepsInvariants(s: Shared, ops: seq<Op>, m: nat)
    requires Bounds(s, m) && Conserved(s)
    requires Run(s, ops, m).Some?
    ensures var r := Run(s, ops, m).value;
            Bounds(r.0, m) && Conserved(r.0) &&
            r.0.usedSem == s.usedSem + |Published(ops)| - |r.1|
    decreases |ops|
  {
    if ops != [] {
      match ops[0]
      case Pub(sol) =>
        RunKeepsInvariants(Publish(s, sol, m), ops[1..], m);
      case Con =>
        RunKeepsInvariants(Consume(s, m).1, ops[1..], m);
    }
  }

  // ---------------------------------------------------------------------------
  // FIFO order: holds when the cursors wrap modulo MAX_DATA, fails with MAX_EDGES

  /** The unread solutions in the order the consumer will read them, if the ring of
      MAX_DATA slots is read as a queue of `usedSem` entries starting at readPos. */
  function Pending(s: Shared): seq<Solution>
    requires |s.slots| == MAX_DATA && 0 <= s.usedSem
  {
    seq(s.usedSem, k => s.slots[(s.readPos + k) % MAX_DATA])
  }

  /** The write cursor is `usedSem` places after the read cursor. */
  predicate CursorsAgree(s: Shared) {
    s.write == (s.readPos + s.usedSem) % MAX_DATA
  }

  lemma ModStep(a: int)
    ensures (a % MAX_DATA + 1) % MAX_DATA == (a + 1) % MAX_DATA
  {
  }

  lemma ModDistinct(a: int, b: int)
    requires 0 <= a < b < a + MAX_DATA
    ensures a % MAX_DATA != b % MAX_DATA
  {
  }

  /** With the slot-count modulus a publish appends to the pending queue. */
  lemma PublishAppends(s: Shared, sol: Solution)
    requires Bounds(s, MAX_DATA) && Conserved(s) && CursorsAgree(s) && s.freeSem > 0
    ensures CursorsAgree(Publish(s, sol, MAX_DATA))
    ensures Pending(Publish(s, sol, MAX_DATA)) == Pending(s) + [sol]
  {
    var r := Publish(s, sol, MAX_DATA);
    ModStep(s.readPos + s.usedSem);
    forall k | 0 <= k < s.usedSem
      ensures Pending(r)[k] == Pending(s)[k]
    {
      ModDistinct(s.readPos + k, s.readPos + s.usedSem);
    }
  }

  /** With the slot-count modulus a consume reads the head of the pending queue. */
  lemma ConsumePops(s: Shared)
    requires Bounds(s, MAX_DATA) && CursorsAgree(s) && s.usedSem > 0
    ensures Consume(s, MAX_DATA).0 == Pending(s)[0]
    ensures CursorsAgree(Consume(s, MAX_DATA).1)
    ensures Pending(Consume(s, MAX_DATA).1) == Pending(s)[1..]
    ensures Pending(s) == [s.slots[s.readPos]] + Pending(Consume(s, MAX_DATA).1)
  {
    var t := Consume(s, MAX_DATA).1;
    forall k | 0 <= k < t.usedSem
      ensures Pending(t)[k] == Pending(s)[k + 1]
    {
      if s.readPos == MAX_DATA - 1 {
        ModPlusModulus(k);
      }
    }
    assert Pending(s) == [Pending(s)[0]] + Pending(s)[1..];
  }

  lemma ModPlusModulus(k: int)
    ensures (k + MAX_DATA) % MAX_DATA == k % MAX_DATA
  {
  }

  /** The ring read as a queue holds over `ops` from `s`: what is read followed by
      what is still pending is what was pending followed by what was published. */
  predicate FifoHolds(s: Shared, ops: seq<Op>)
    requires Bounds(s, MAX_DATA)
  {
    Run(s, ops, MAX_DATA).Some? ==>
      var r := Run(s, ops, MAX_DATA).value;
      r.1 + Pending(r.0) == Pending(s) + Published(ops)
  }

  lemma FifoPubStep(s: Shared, ops: seq<Op>)
    requires Bounds(s, MAX_DATA) && Conserved(s) && CursorsAgree(s)
    requires ops != [] && ops[0].Pub? && s.freeSem > 0
    requires FifoHolds(Publish(s, ops[0].sol, MAX_DATA), ops[1..])
    ensures FifoHolds(s, ops)
  {
    var sol := ops[0].sol;
    var t := Publish(s, sol, MAX_DATA);
    PublishAppends(s, sol);
    RunPub(s, ops, MAX_DATA);
    PublishedTakesPub(ops);
    if Run(t, ops[1..], MAX_DATA).Some? {
      var res := Run(t, ops[1..], MAX_DATA).value;
      SnocAssoc(res.1 + Pending(res.0), Pending(s), sol, Published(ops[1..]));
    }
  }

  lemma PublishedTakesPub(ops: seq<Op>)
    requires ops != [] && ops[0].Pub?
    ensures Published(ops) == [ops[0].sol] + Published(ops[1..])
  {
  }

  lemma SnocAssoc<T>(a: seq<T>, p: seq<T>, x: T, q: seq<T>)
    requires a == (p + [x]) + q
    ensures a == p + ([x] + q)
  {
  }

  /** A consume step followed by the rest of the trace. */
  lemma RunCon(s: Shared, ops: seq<Op>, m: nat)
    requires Bounds(s, m) && ops != [] && ops[0].Con? && s.usedSem > 0
    ensures var t := Consume(s, m).1;
            Run(s, ops, m) == if Run(t, ops[1..], m).None? then None
                              else Some((Run(t, ops[1..], m).value.0, [s.slots[s.readPos]] + Run(t, ops[1..], m).value.1))
  {
  }

  /** A publish step followed by the rest of the trace. */
  lemma RunPub(s: Shared, ops: seq<Op>, m: nat)
    requires Bounds(s, m) && ops != [] && ops[0].Pub? && s.freeSem > 0
    ensures Run(s, ops, m) == Run(Publish(s, ops[0].sol, m), ops[1..], m)
  {
  }

  lemma FifoConStep(s: Shared, ops: seq<Op>)
    requires Bounds(s, MAX_DATA) && CursorsAgree(s)
    requires ops != [] && ops[0].Con? && s.usedSem > 0
    requires FifoHolds(Consume(s, MAX_DATA).1, ops[1..])
    ensures FifoHolds(s, ops)
  {
    var t := Consume(s, MAX_DATA).1;
    ConsumePops(s);
    RunCon(s, ops, MAX_DATA);
    PublishedSkipsCon(ops);
    if Run(t, ops[1..], MAX_DATA).Some? {
      var res := Run(t, ops[1..], MAX_DATA).value;
      ConsAssoc(s.slots[s.readPos], res.1, Pending(res.0), Pending(t), Published(ops[1..]));
    }
  }

  lemma PublishedSkipsCon(ops: seq<Op>)
    requires ops != [] && ops[0].Con?
    ensures Published(ops) == Published(ops[1..])
  {
  }

  lemma ConsAssoc<T>(x: T, a: seq<T>, b: seq<T>, c: seq<T>, d: seq<T>)
    requires a + b == c + d
    ensures ([x] + a) + b == ([x] + c) + d
  {
    assert ([x] + a) + b == [x] + (a + b);
    assert ([x] + c) + d == [x] + (c + d);
  }

  /** Corrected ring: when both cursors wrap modulo MAX_DATA, every run of publish
      and consume steps reads exactly the published solutions in publish order,
      none skipped, none overwritten before being read. */
  lemma {:induction false} CorrectedRunIsFifo(s: Shared, ops: seq<Op>)
    requires Bounds(s, MAX_DATA) && Conserved(s) && CursorsAgree(s)
    requires Run(s, ops, MAX_DATA).Some?
    ensures var r := Run(s, ops, MAX_DATA).value;
            r.1 + Pending(r.0) == Pending(s) + Published(ops)
    decreases |ops|
  {
    if ops != [] {
      match ops[0]
      case Pub(sol) =>
        var t := Publish(s, sol, MAX_DATA);
        PublishAppends(s, sol);
        CorrectedRunIsFifo(t, ops[1..]);
        FifoPubStep(s, ops);
      case Con =>
        var t := Consume(s, MAX_DATA).1;
        ConsumePops(s);
        CorrectedRunIsFifo(t, ops[1..]);
        FifoConStep(s, ops);
    }
  }

  /** From the initial state the corrected ring hands out a prefix of what was
      published. */
  lemma CorrectedReadsPrefix(ops: seq<Op>)
    requires Run(Initial(), ops, MAX_DATA).Some?
    ensures var outs := Run(Initial(), ops, MAX_DATA).value.1;
            |outs| <= |Published(ops)| && outs == Published(ops)[..|outs|]
  {
    CorrectedRunIsFifo(Initial(), ops);
    var r := Run(Initial(), ops, MAX_DATA).value;
    assert Pending(Initial()) == [];
    assert r.1 + Pending(r.0) == Published(ops);
  }

  /** A solution whose first edge carries the mark k. */
  function Marked(k: int): Solution {
    Solution(seq(MAX_EDGES, _ => Edge(k, k)), 1)
  }

  /** MAX_EDGES + 1 publishes of Marked(0), Marked(1), ... with nobody reading,
      then one read. */
  function Flood(): (ops: seq<Op>)
    ensures |ops| == MAX_EDGES + 2 && ops[MAX_EDGES + 1] == Con
    ensures forall k :: 0 <= k <= MAX_EDGES ==> ops[k] == Pub(Marked(k))
  {
    seq(MAX_EDGES + 1, k => Pub(Marked(k))) + [Con]
  }

  /** The state after the first k publishes of Flood() with the as-written
      modulus. */
  function AfterPubs(k: nat): (s: Shared)
    requires k <= MAX_DATA
    ensures Bounds(s, MAX_EDGES) && s.readPos == 0 && s.write == k % MAX_EDGES
    ensures s.freeSem == MAX_DATA - k && s.usedSem == k
    ensures k > 0 ==> s.slots[(k - 1) % MAX_EDGES] == Marked(k - 1)
  {
    if k == 0 then Initial() else Publish(AfterPubs(k - 1), Marked(k - 1), MAX_EDGES)
  }

  /** From the state after k publishes the rest of Flood() goes through and reads
      what the last publish left in slot 0. */
  lemma {:induction false} FloodFrom(k: nat)
    requires k <= MAX_EDGES + 1
    ensures Run(AfterPubs(k), Flood()[k..], MAX_EDGES).Some?
    ensures Run(AfterPubs(k), Flood()[k..], MAX_EDGES).value.1 == [AfterPubs(MAX_EDGES + 1).slots[0]]
    decreases MAX_EDGES + 1 - k
  {
    var ops := Flood();
    if k == MAX_EDGES + 1 {
      var s := AfterPubs(k);
      assert ops[k..] == [Con];
      assert Run(Consume(s, MAX_EDGES).1, [], MAX_EDGES) == Some((Consume(s, MAX_EDGES).1, []));
      assert [s.slots[0]] + [] == [s.slots[0]];
    } else {
      FloodFrom(k + 1);
      var rest := ops[k..];
      assert rest[0] == Pub(Marked(k)) && rest[1..] == ops[k + 1..];
      RunPub(AfterPubs(k), rest, MAX_EDGES);
    }
  }

  /** As written (cursors modulo MAX_EDGES): the free semaphore admits all
      MAX_EDGES + 1 publishes, the last overwrites slot 0, and the first read
      returns the last solution instead of the first. */
  lemma AsWrittenOverwritesUnread()
    ensures Run(Initial(), Flood(), MAX_EDGES).Some?
    ensures Run(Initial(), Flood(), MAX_EDGES).value.1 == [Marked(MAX_EDGES)]
    ensures Published(Flood())[0] == Marked(0) != Marked(MAX_EDGES)
  {
    FloodFrom(0);
    assert Flood()[0..] == Flood();
    assert AfterPubs(MAX_EDGES + 1).slots[0] == Marked(MAX_EDGES);
    assert Marked(0).edges[0] != Marked(MAX_EDGES).edges[0];
  }

  // ---------------------------------------------------------------------------
  // The generator tracker

  /** The generator's start-up (generator.c:266-274): a generator that finds quit
      already set exits before counting itself; otherwise it increments the tracker.
      The boolean says whether it counted itself. */
  function Attach(tracker: int, quit: int): (r: (int, bool))
    ensures r.1 <==> quit != 1
    ensures r.0 == if r.1 then tracker + 1 else tracker
  {
    if quit == 1 then (tracker, false) else (tracker + 1, true)
  }

  /** The generator's closeUp (generator.c:203-204) as written: whenever the region
      is mapped the tracker is decremented, whether or not the generator counted
      itself. */
  function DetachAsWritten(tracker: int): int {
    tracker - 1
  }

  /** The evidently intended closeUp: only a generator that counted itself
      uncounts itself. */
  function DetachCorrected(tracker: int, counted: bool): int {
    if counted then tracker - 1 else tracker
  }

  /** Lifecycle events: a generator starts (and, finding quit set, leaves at
      once), a running generator leaves, or quit is set (zero-edge solution or a
      signal to the supervisor). */
  datatype GenEvent = Launch | Leave | SetQuit

  /** Tracker value and number of counted generators still running after a
      sequence of events, with the as-written or the corrected closeUp. A Leave
      with no running generator does nothing. */
  function Replay(events: seq<GenEvent>, tracker: int, live: nat, quit: int, corrected: bool): (int, nat)
    decreases |events|
  {
    if events == [] then (tracker, live)
    else match events[0]
      case Launch =>
        var (t, counted) := Attach(tracker, quit);
        if counted then Replay(events[1..], t, live + 1, quit, corrected)
        else
          var t' := if corrected then DetachCorrected(t, false) else DetachAsWritten(t);
          Replay(events[1..], t', live, quit, corrected)
      case Leave =>
        if live == 0 then Replay(events[1..], tracker, live, quit, corrected)
        else
          var t' := if corrected then DetachCorrected(tracker, true) else DetachAsWritten(tracker);
          Replay(events[1..], t', live - 1, quit, corrected)
      case SetQuit => Replay(events[1..], tracker, live, 1, corrected)
  }

  /** Corrected closeUp: starting from the supervisor's zero, the tracker always
      equals the number of counted generators still running, so it is never
      negative and the shutdown fan-out posts once per such generator. */
  lemma {:induction false} CorrectedTrackerCountsLive(events: seq<GenEvent>, tracker: int, live: nat, quit: int)
    requires tracker == live
    ensures var r := Replay(events, tracker, live, quit, true);
            r.0 == r.1 && r.0 >= 0 && (r.1 < SIZE_T_MODULUS ==> FanOut(r.0) == r.1)
    decreases |events|
  {
    if events != [] {
      match events[0]
      case Launch =>
        var (t, counted) := Attach(tracker, quit);
        if counted {
          CorrectedTrackerCountsLive(events[1..], t, live + 1, quit);
        } else {
          CorrectedTrackerCountsLive(events[1..], DetachCorrected(t, false), live, quit);
        }
      case Leave =>
        if live == 0 {
          CorrectedTrackerCountsLive(events[1..], tracker, live, quit);
        } else {
          CorrectedTrackerCountsLive(events[1..], DetachCorrected(tracker, true), live - 1, quit);
        }
      case SetQuit =>
        CorrectedTrackerCountsLive(events[1..], tracker, live, 1);
    }
  }

  /** As written: quit is set, one generator starts late and leaves at once; the
      tracker drops to -1 with no generator running, and the bound of the
      supervisor's shutdown loop becomes 2^64 - 1. */
  lemma AsWrittenTrackerUnderflows()
    ensures Replay([SetQuit, Launch], 0, 0, 0, false) == (-1, 0)
    ensures FanOut(Replay([SetQuit, Launch], 0, 0, 0, false).0) == SIZE_T_MODULUS - 1
  {
    assert Replay([SetQuit, Launch], 0, 0, 0, false) == Replay([Launch], 0, 0, 1, false);
    assert Replay([Launch], 0, 0, 1, false) == Replay([], -1, 0, 1, false);
  }
}
