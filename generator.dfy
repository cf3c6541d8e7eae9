/** The generator (3coloring/generator.c): it parses the edges given on the command
    line, repeatedly colours the nodes at random, collects the edges whose two ends
    got the same colour, and publishes every small enough collection into the
    shared buffer.

    rand() is replaced by a sequence of draws given by the caller; the node and
    edge buffers main allocates are arrays the caller passes in. */
module Generator {
  import opened ThreeColor
  import opened CStrings
  import Ring
  import opened SharedMemory

  // ---------------------------------------------------------------------------
  // Specification functions over the graph

  /** The node indices of a run of nodes, in order. */
  function Indices(ns: seq<Node>): (r: seq<int>)
    ensures |r| == |ns|
    ensures forall i :: 0 <= i < |ns| ==> r[i] == ns[i].nodeIdx
  {
    seq(|ns|, i requires 0 <= i < |ns| => ns[i].nodeIdx)
  }

  predicate NoDuplicates(xs: seq<int>) {
    forall i, j :: 0 <= i < j < |xs| ==> xs[i] != xs[j]
  }

  /** The position of the first node carrying `idx`, if any. */
  function FindNode(ns: seq<Node>, idx: int): (r: Option<nat>)
    ensures r.Some? ==> r.value < |ns|
  {
    FindFrom(ns, idx, 0)
  }

  /** The position of the first node at or after k carrying `idx`, if any. */
  function FindFrom(ns: seq<Node>, idx: int, k: nat): (r: Option<nat>)
    ensures r.Some? ==> k <= r.value < |ns|
    decreases |ns| - k
  {
    if k >= |ns| then None
    else if ns[k].nodeIdx == idx then Some(k)
    else FindFrom(ns, idx, k + 1)
  }

  /** FindNode finds nothing exactly when no node carries the index, and otherwise
      the first node that does. */
  lemma FindNodeFirst(ns: seq<Node>, idx: int)
    ensures var r := FindNode(ns, idx);
            && (r.None? <==> forall i :: 0 <= i < |ns| ==> ns[i].nodeIdx != idx)
            && (r.Some? ==> ns[r.value].nodeIdx == idx &&
                            forall j :: 0 <= j < r.value ==> ns[j].nodeIdx != idx)
  {
    FindFromFirst(ns, idx, 0);
  }

  lemma {:induction false} FindFromFirst(ns: seq<Node>, idx: int, k: nat)
    ensures var r := FindFrom(ns, idx, k);
            && (r.None? <==> forall i :: k <= i < |ns| ==> ns[i].nodeIdx != idx)
            && (r.Some? ==> ns[r.value].nodeIdx == idx &&
                            forall j :: k <= j < r.value ==> ns[j].nodeIdx != idx)
    decreases |ns| - k
  {
    if k < |ns| && ns[k].nodeIdx != idx {
      FindFromFirst(ns, idx, k + 1);
    }
  }

  /** Where a node is found depends on the node indices only, not on the colours. */
  lemma FindNodeIndicesOnly(ns: seq<Node>, ms: seq<Node>, idx: int)
    requires Indices(ns) == Indices(ms)
    ensures FindNode(ns, idx) == FindNode(ms, idx)
  {
    assert |ns| == |Indices(ns)| == |ms|;
    assert forall i :: 0 <= i < |ns| ==> ns[i].nodeIdx == Indices(ns)[i] == ms[i].nodeIdx;
    FindNodeFirst(ns, idx);
    FindNodeFirst(ms, idx);
  }

  /** Both ends of the edge are nodes of `ns`. */
  predicate Covers(ns: seq<Node>, e: Edge) {
    FindNode(ns, e.firstNode).Some? && FindNode(ns, e.secondNode).Some?
  }

  predicate AllCovered(ns: seq<Node>, es: seq<Edge>) {
    forall i :: 0 <= i < |es| ==> Covers(ns, es[i])
  }

  /** Both ends of the edge are nodes of `ns` and they have the same colour. */
  predicate SameColour(ns: seq<Node>, e: Edge) {
    && Covers(ns, e)
    && ns[FindNode(ns, e.firstNode).value].color == ns[FindNode(ns, e.secondNode).value].color
  }

  /** The first n edges of `es` whose ends have the same colour, in order. */
  function Conflicts(ns: seq<Node>, es: seq<Edge>, n: nat): (c: seq<Edge>)
    requires n <= |es|
    ensures |c| <= n
  {
    if n == 0 then []
    else Conflicts(ns, es, n - 1) + (if SameColour(ns, es[n - 1]) then [es[n - 1]] else [])
  }

  lemma ConflictsNext(ns: seq<Node>, es: seq<Edge>, i: nat)
    requires i < |es|
    ensures Conflicts(ns, es, i + 1) ==
            Conflicts(ns, es, i) + if SameColour(ns, es[i]) then [es[i]] else []
  {
  }

  /** Looking at more edges only appends to the conflicts found so far. */
  lemma {:induction false} ConflictsPrefix(ns: seq<Node>, es: seq<Edge>, i: nat, j: nat)
    requires i <= j <= |es|
    ensures Conflicts(ns, es, i) <= Conflicts(ns, es, j)
    decreases j - i
  {
    if i < j {
      ConflictsPrefix(ns, es, i, j - 1);
    }
  }

  /** Every conflict is an edge whose ends share a colour. */
  lemma {:induction false} ConflictsSound(ns: seq<Node>, es: seq<Edge>, n: nat, k: nat)
    requires n <= |es| && k < |Conflicts(ns, es, n)|
    ensures SameColour(ns, Conflicts(ns, es, n)[k])
  {
    if k < |Conflicts(ns, es, n - 1)| {
      ConflictsSound(ns, es, n - 1, k);
    }
  }

  /** Every edge among the first n whose ends share a colour is among the
      conflicts: removing the conflicts leaves edges the colouring colours
      properly. */
  lemma {:induction false} ConflictsComplete(ns: seq<Node>, es: seq<Edge>, n: nat, i: nat)
    requires i < n <= |es| && SameColour(ns, es[i])
    ensures es[i] in Conflicts(ns, es, n)
  {
    if i < n - 1 {
      ConflictsComplete(ns, es, n - 1, i);
    }
  }

  /** No conflict at all exactly when no edge has two ends of the same colour, and
      every edge is a conflict exactly when there are as many conflicts as edges. */
  lemma {:induction false} ConflictsCount(ns: seq<Node>, es: seq<Edge>, n: nat)
    requires n <= |es|
    ensures Conflicts(ns, es, n) == [] <==> forall i :: 0 <= i < n ==> !SameColour(ns, es[i])
    ensures |Conflicts(ns, es, n)| == n <==> forall i :: 0 <= i < n ==> SameColour(ns, es[i])
  {
    if n > 0 {
      ConflictsCount(ns, es, n - 1);
    }
  }

  /** The endpoints of the edges, first and second node of each edge in order. */
  function Endpoints(es: seq<Edge>): seq<int> {
    if es == [] then []
    else Endpoints(es[..|es| - 1]) + [es[|es| - 1].firstNode, es[|es| - 1].secondNode]
  }

  lemma {:induction false} EndpointsHas(es: seq<Edge>, i: nat)
    requires i < |es|
    ensures es[i].firstNode in Endpoints(es) && es[i].secondNode in Endpoints(es)
  {
    if i < |es| - 1 {
      assert es[..|es| - 1][i] == es[i];
      EndpointsHas(es[..|es| - 1], i);
    }
  }

  /** The values of `xs` in order of first appearance. */
  function Dedup(xs: seq<int>): seq<int> {
    if xs == [] then []
    else
      var p := Dedup(xs[..|xs| - 1]);
      var x := xs[|xs| - 1];
      if x in p then p else p + [x]
  }

  /** Dedup keeps every value once and no value more than once. */
  lemma {:induction false} DedupSound(xs: seq<int>)
    ensures NoDuplicates(Dedup(xs))
    ensures forall x :: x in Dedup(xs) <==> x in xs
  {
    if xs != [] {
      DedupSound(xs[..|xs| - 1]);
      assert xs == xs[..|xs| - 1] + [xs[|xs| - 1]];
    }
  }

  lemma DedupStep(xs: seq<int>, x: int)
    ensures Dedup(xs + [x]) == if x in Dedup(xs) then Dedup(xs) else Dedup(xs) + [x]
  {
    assert (xs + [x])[..|xs|] == xs;
  }

  /** Adding the two endpoints of one more edge, each only if it is new. */
  lemma DedupPairStep(xs: seq<int>, a: int, b: int, n0: seq<int>, n1: seq<int>, n2: seq<int>)
    requires n0 == Dedup(xs)
    requires n1 == n0 + if a in n0 then [] else [a]
    requires n2 == n1 + if b in n1 then [] else [b]
    ensures n2 == Dedup(xs + [a, b])
  {
    DedupStep(xs, a);
    DedupStep(xs + [a], b);
    assert xs + [a] + [b] == xs + [a, b];
  }

  lemma EndpointsStep(es: seq<Edge>, e: Edge)
    ensures Endpoints(es + [e]) == Endpoints(es) + [e.firstNode, e.secondNode]
  {
    assert (es + [e])[..|es|] == es;
  }

  // ---------------------------------------------------------------------------
  // Parsing the command line

  /** The regular expression ^[0-9]*-[0-9]*$: exactly one '-', digits elsewhere. */
  predicate EdgeToken(t: string) {
    var k := Span(t, {'-'});
    k < |t| && AllDigits(t[..k]) && AllDigits(t[k + 1..])
  }

  /** An edge token with digits on both sides of the '-'. One with an empty side
      passes the regular expression but makes strtok return NULL, which strtol
      dereferences. */
  predicate Convertible(t: string) {
    EdgeToken(t) && 0 < Span(t, {'-'}) < |t| - 1
  }

  /** convertEdge (generator.c:95-98): the value of the digits before the '-' and
      the value of the digits after it (ConvertEdgeIsStrtok shows these are the
      two tokens strtok hands to strtol). */
  function ConvertEdge(t: string): Edge
    requires Convertible(t)
  {
    var k := Span(t, {'-'});
    Edge(DecimalValue(t[..k]), DecimalValue(t[k + 1..]))
  }

  /** strtok(t, "-") returns the digits before the '-' and strtok(NULL, "-") the
      digits after it, and the edge holds their values. */
  lemma ConvertEdgeIsStrtok(t: string)
    requires Convertible(t)
    ensures var first := StrTok(t, {'-'});
            var second := StrTok(first.rest, {'-'});
            && first.token.Some? && AllDigits(first.token.value)
            && second.token.Some? && AllDigits(second.token.value)
            && second.rest == []
            && ConvertEdge(t) == Edge(DecimalValue(first.token.value), DecimalValue(second.token.value))
  {
    var k := Span(t, {'-'});
    assert t == t[..k] + ['-'] + t[k + 1..];
    StrTokAt(t[..k], '-', t[k + 1..], {'-'});
    StrTokWhole(t[k + 1..], {'-'});
  }

  /** The token "a-b" printed from two numbers converts back to the edge (a, b). */
  lemma ConvertEdgeReadsBack(a: nat, b: nat)
    ensures Convertible(DecimalString(a) + "-" + DecimalString(b))
    ensures ConvertEdge(DecimalString(a) + "-" + DecimalString(b)) == Edge(a, b)
  {
    var sa, sb := DecimalString(a), DecimalString(b);
    var t := sa + "-" + sb;
    SpanStops(sa, '-', sb, {'-'});
    assert t[..|sa|] == sa;
    assert t[|sa| + 1..] == sb;
    DecimalRoundTrip(a);
    DecimalRoundTrip(b);
  }

  /** checkNodesExisting (generator.c:63-70): 1 iff one of the first currLen nodes
      carries the index. */
  method CheckNodesExisting(nodeIdx: int, currLen: int, nodes: array<Node>) returns (r: int)
    requires 0 <= currLen <= nodes.Length
    ensures r == 0 || r == 1
    ensures r == 1 <==> nodeIdx in Indices(nodes[..currLen])
  {
    var i := 0;
    while i < currLen
      invariant 0 <= i <= currLen
      invariant forall j :: 0 <= j < i ==> nodes[j].nodeIdx != nodeIdx
    {
      if nodeIdx == nodes[i].nodeIdx {
        assert Indices(nodes[..currLen])[i] == nodeIdx;
        return 1;
      }
      i := i + 1;
    }
    return 0;
  }

  /** addNodes (generator.c:80-87): appends the node with colour 0 at position
      currLen and returns 1 iff the index is new; otherwise changes nothing and
      returns 0. */
  method AddNodes(nodeIdx: int, currLen: int, nodes: array<Node>) returns (r: int)
    requires 0 <= currLen < nodes.Length
    modifies nodes
    ensures r == 0 || r == 1
    ensures r == 1 <==> nodeIdx !in Indices(old(nodes[..currLen]))
    ensures nodes[currLen] == if r == 1 then Node(nodeIdx, 0) else old(nodes[currLen])
    ensures forall j :: 0 <= j < nodes.Length && j != currLen ==> nodes[j] == old(nodes[j])
    ensures Indices(nodes[..currLen + r]) ==
            Indices(old(nodes[..currLen])) + if nodeIdx in Indices(old(nodes[..currLen])) then [] else [nodeIdx]
  {
    var exists_ := CheckNodesExisting(nodeIdx, currLen, nodes);
    if exists_ != 1 {
      nodes[currLen] := Node(nodeIdx, 0);
      assert nodes[..currLen + 1] == old(nodes[..currLen]) + [Node(nodeIdx, 0)];
      return 1;
    }
    return 0;
  }

  /** The two addNodes calls of one parseInput iteration (generator.c:128-129):
      if the first currLen nodes are the endpoints `seen` without repetition, then
      afterwards the first newLen nodes are those of `seen` and the new edge. */
  method AddEndpoints(edge: Edge, currLen: int, nodes: array<Node>, ghost seen: seq<int>)
    returns (newLen: int)
    requires 0 <= currLen && currLen + 2 <= nodes.Length
    requires Indices(nodes[..currLen]) == Dedup(seen)
    requires forall j :: 0 <= j < currLen ==> nodes[j].color == 0
    modifies nodes
    ensures currLen <= newLen <= currLen + 2
    ensures Indices(nodes[..newLen]) == Dedup(seen + [edge.firstNode, edge.secondNode])
    ensures forall j :: 0 <= j < newLen ==> nodes[j].color == 0
  {
    ghost var n0 := Indices(nodes[..currLen]);
    var added := AddNodes(edge.firstNode, currLen, nodes);
    newLen := currLen + added;
    ghost var n1 := Indices(nodes[..newLen]);
    added := AddNodes(edge.secondNode, newLen, nodes);
    newLen := newLen + added;
    DedupPairStep(seen, edge.firstNode, edge.secondNode, n0, n1, Indices(nodes[..newLen]));
  }

  /** parseInput (generator.c:113-138) on argv[1..]. Every token must match the
      edge pattern (otherwise wrongInputError ends the program: ok is false); each
      is converted into edges[i], and the nodes array collects every endpoint once,
      in order of first appearance, with colour 0.
      The nodes and edges arrays are main's (generator.c:259-260): 2 * argc nodes
      and argc edges. */
  method ParseInput(args: seq<string>, nodes: array<Node>, edges: array<Edge>)
    returns (ok: bool, nodesCount: int, edgesCount: int)
    requires nodes.Length >= 2 * |args| && edges.Length >= |args|
    requires forall i :: 0 <= i < |args| && EdgeToken(args[i]) ==> Convertible(args[i])
    modifies nodes, edges
    ensures ok <==> forall i :: 0 <= i < |args| ==> EdgeToken(args[i])
    ensures ok ==> edgesCount == |args| && 0 <= nodesCount <= nodes.Length
    ensures ok ==> forall i :: 0 <= i < |args| ==> edges[i] == ConvertEdge(args[i])
    ensures ok ==> Indices(nodes[..nodesCount]) == Dedup(Endpoints(edges[..edgesCount]))
    ensures ok ==> forall i :: 0 <= i < nodesCount ==> nodes[i].color == 0
  {
    var currLen := 0;
    var i := 0;
    ghost var parsed: seq<Edge> := [];
    while i < |args|
      invariant 0 <= i <= |args| && |parsed| == i
      invariant forall j :: 0 <= j < i ==> Convertible(args[j]) && parsed[j] == ConvertEdge(args[j]) == edges[j]
      invariant 0 <= currLen <= 2 * i
      invariant Indices(nodes[..currLen]) == Dedup(Endpoints(parsed))
      invariant forall j :: 0 <= j < currLen ==> nodes[j].color == 0
    {
      if !EdgeToken(args[i]) {
        return false, currLen, i;
      }
      var edge := ConvertEdge(args[i]);
      edges[i] := edge;
      EndpointsStep(parsed, edge);
      currLen := AddEndpoints(edge, currLen, nodes, Endpoints(parsed));
      parsed := parsed + [edge];
      i := i + 1;
    }
    assert edges[..i] == parsed;
    return true, currLen, i;
  }

  /** After a successful parse every node index appears once and both ends of every
      edge are among the nodes, so getNode never returns NULL in findSolution. */
  lemma ParsedGraphIsCovered(ns: seq<Node>, es: seq<Edge>)
    requires Indices(ns) == Dedup(Endpoints(es))
    ensures NoDuplicates(Indices(ns))
    ensures AllCovered(ns, es)
  {
    DedupSound(Endpoints(es));
    forall i | 0 <= i < |es|
      ensures Covers(ns, es[i])
    {
      EndpointsHas(es, i);
      assert es[i].firstNode in Indices(ns);
      assert es[i].secondNode in Indices(ns);
      FindNodeFirst(ns, es[i].firstNode);
      FindNodeFirst(ns, es[i].secondNode);
    }
  }

  // ---------------------------------------------------------------------------
  // Colouring and collecting conflicts

  /** randomNodeColor (generator.c:146-150): node i gets colour draws[i] % 3, where
      draws[i] is the value rand() returned for it. */
  method RandomNodeColor(nodesCount: int, nodes: array<Node>, draws: seq<nat>)
    requires 0 <= nodesCount <= nodes.Length && |draws| >= nodesCount
    modifies nodes
    ensures forall i :: 0 <= i < nodesCount ==>
              nodes[i] == Node(old(nodes[i]).nodeIdx, draws[i] % 3) && 0 <= nodes[i].color < 3
    ensures forall i :: nodesCount <= i < nodes.Length ==> nodes[i] == old(nodes[i])
    ensures Indices(nodes[..nodesCount]) == Indices(old(nodes[..nodesCount]))
  {
    var i := 0;
    while i < nodesCount
      invariant 0 <= i <= nodesCount
      invariant forall j :: 0 <= j < i ==> nodes[j] == Node(old(nodes[j]).nodeIdx, draws[j] % 3)
      invariant forall j :: i <= j < nodes.Length ==> nodes[j] == old(nodes[j])
    {
      nodes[i] := nodes[i].(color := draws[i] % 3);
      i := i + 1;
    }
  }

  /** getNode (generator.c:160-167): the first of the currLen nodes carrying the
      index, or NULL. */
  method GetNode(nodeIdx: int, currLen: int, nodes: array<Node>) returns (r: Option<nat>)
    requires 0 <= currLen <= nodes.Length
    ensures r == FindNode(nodes[..currLen], nodeIdx)
  {
    var i := 0;
    while i < currLen
      invariant 0 <= i <= currLen
      invariant FindFrom(nodes[..currLen], nodeIdx, i) == FindNode(nodes[..currLen], nodeIdx)
    {
      if nodes[i].nodeIdx == nodeIdx {
        return Some(i);
      }
      i := i + 1;
    }
    return None;
  }

  function Min(a: int, b: int): int {
    if a <= b then a else b
  }

  /** The loop of findSolution (generator.c:182-195) over a colouring that is
      already in place: the conflicting edges are copied into the solution until
      MAX_EDGES are held. */
  method CollectConflicts(nodes: array<Node>, edges: array<Edge>, nodesCount: int, edgesCount: int,
                          solution: Solution)
    returns (ret: int, sol: Solution)
    requires 0 <= nodesCount <= nodes.Length && 0 <= edgesCount <= edges.Length
    requires AllCovered(nodes[..nodesCount], edges[..edgesCount])
    requires |solution.edges| == MAX_EDGES && solution.numberOfEdges == 0
    ensures var c := Conflicts(nodes[..nodesCount], edges[..edgesCount], edgesCount);
            && (ret == 0 || ret == 1)
            && (ret == 1 <==> |c| <= MAX_EDGES && (edgesCount == 0 || |c| < edgesCount))
            && |sol.edges| == MAX_EDGES
            && sol.numberOfEdges == Min(|c|, MAX_EDGES)
            && sol.edges[..sol.numberOfEdges] == c[..sol.numberOfEdges]
  {
    ghost var es := edges[..edgesCount];
    ghost var ns := nodes[..nodesCount];
    ghost var c := Conflicts(ns, es, edgesCount);
    sol := solution;
    var i := 0;
    var countEdges := 0;
    ghost var cur: seq<Edge> := [];
    while i < edgesCount
      invariant 0 <= i <= edgesCount
      invariant cur == Conflicts(ns, es, i)
      invariant countEdges == sol.numberOfEdges == |cur| <= MAX_EDGES
      invariant |sol.edges| == MAX_EDGES
      invariant sol.edges[..countEdges] == cur
      invariant i > 0 ==> countEdges < edgesCount
    {
      var fn := GetNode(edges[i].firstNode, nodesCount, nodes);
      var sn := GetNode(edges[i].secondNode, nodesCount, nodes);
      assert edges[i] == es[i] && Covers(ns, es[i]);
      ghost var same := SameColour(ns, es[i]);
      assert nodes[fn.value] == ns[fn.value] && nodes[sn.value] == ns[sn.value];
      ConflictsNext(ns, es, i);
      if nodes[fn.value].color == nodes[sn.value].color {
        if sol.numberOfEdges == MAX_EDGES {
          ConflictsPrefix(ns, es, i + 1, edgesCount);
          ConflictsPrefix(ns, es, i, edgesCount);
          assert |c| > MAX_EDGES && c[..countEdges] == cur;
          return 0, sol;
        }
        assert sol.edges[countEdges := edges[i]][..countEdges + 1] == cur + [es[i]];
        sol := sol.(edges := sol.edges[countEdges := edges[i]], numberOfEdges := sol.numberOfEdges + 1);
        countEdges := countEdges + 1;
      }
      cur := cur + if same then [es[i]] else [];
      if countEdges == edgesCount {
        assert i + 1 == edgesCount && cur == c;
        assert c[..countEdges] == c;
        return 0, sol;
      }
      i := i + 1;
    }
    assert cur == c && c[..countEdges] == c;
    return 1, sol;
  }

  /** findSolution (generator.c:180-196) called with a zeroed solution (as main does
      at generator.c:279): recolour the nodes, then collect the conflicting edges.
      The result is 1 exactly when all the conflicts fit into the solution and not
      every edge is a conflict; the solution then holds all of them, so removing
      its edges leaves the graph properly coloured (ConflictsComplete). */
  method FindSolution(nodes: array<Node>, edges: array<Edge>, nodesCount: int, edgesCount: int,
                      draws: seq<nat>, solution: Solution)
    returns (ret: int, sol: Solution)
    requires 0 <= nodesCount <= nodes.Length && 0 <= edgesCount <= edges.Length
    requires |draws| >= nodesCount
    requires AllCovered(nodes[..nodesCount], edges[..edgesCount])
    requires |solution.edges| == MAX_EDGES && solution.numberOfEdges == 0
    modifies nodes
    ensures forall i :: 0 <= i < nodesCount ==> nodes[i] == Node(old(nodes[i]).nodeIdx, draws[i] % 3)
    ensures forall i :: nodesCount <= i < nodes.Length ==> nodes[i] == old(nodes[i])
    ensures AllCovered(nodes[..nodesCount], edges[..edgesCount])
    ensures var c := Conflicts(nodes[..nodesCount], edges[..edgesCount], edgesCount);
            && (ret == 0 || ret == 1)
            && (ret == 1 <==> |c| <= MAX_EDGES && (edgesCount == 0 || |c| < edgesCount))
            && |sol.edges| == MAX_EDGES
            && sol.numberOfEdges == Min(|c|, MAX_EDGES)
            && sol.edges[..sol.numberOfEdges] == c[..sol.numberOfEdges]
  {
    ghost var ns0 := nodes[..nodesCount];
    RandomNodeColor(nodesCount, nodes, draws);
    CoveredAfterRecolouring(ns0, nodes[..nodesCount], edges[..edgesCount]);
    ret, sol := CollectConflicts(nodes, edges, nodesCount, edgesCount, solution);
  }

  lemma CoveredAfterRecolouring(ns0: seq<Node>, ns: seq<Node>, es: seq<Edge>)
    requires AllCovered(ns0, es) && Indices(ns) == Indices(ns0)
    ensures AllCovered(ns, es)
  {
    forall i | 0 <= i < |es|
      ensures Covers(ns, es[i])
    {
      FindNodeIndicesOnly(ns, ns0, es[i].firstNode);
      FindNodeIndicesOnly(ns, ns0, es[i].secondNode);
    }
  }

  // ---------------------------------------------------------------------------
  // The shared buffer

  /** writeToSolutionBuffer (generator.c:223-232): the state afterwards is the
      publish step of the ring model, with the cursor wrapping modulo MAX_EDGES as
      in the source. */
  method WriteToSolutionBuffer(shm: Shm, solution: Solution)
    requires Ring.Bounds(shm.State(), MAX_EDGES) && shm.freeSem > 0
    modifies shm, shm.slots
    ensures shm.slots == old(shm.slots)
    ensures shm.State() == Ring.Publish(old(shm.State()), solution, MAX_EDGES)
  {
    shm.writeSem := shm.writeSem - 1;
    shm.freeSem := shm.freeSem - 1;
    shm.slots[shm.write] := solution;
    shm.write := (shm.write + 1) % MAX_EDGES;
    shm.usedSem := shm.usedSem + 1;
    shm.writeSem := shm.writeSem + 1;
  }

  /** The start-up of main (generator.c:269-274) once the region is mapped: leave
      if quit is already set, otherwise count this generator in the tracker. */
  method JoinBuffer(shm: Shm) returns (counted: bool)
    modifies shm
    ensures (shm.shmTracker, counted) == Ring.Attach(old(shm.shmTracker), old(shm.quit))
    ensures shm.slots == old(shm.slots)
    ensures shm.State() == old(shm.State()).(shmTracker := shm.shmTracker)
  {
    if shm.quit == 1 {
      return false;
    }
    shm.shmTracker := shm.shmTracker + 1;
    return true;
  }

  /** closeUp (generator.c:202-216) with the region mapped: the tracker is
      decremented whether or not JoinBuffer counted this generator. */
  method CloseUp(shm: Shm)
    modifies shm
    ensures shm.shmTracker == Ring.DetachAsWritten(old(shm.shmTracker))
    ensures shm.slots == old(shm.slots)
    ensures shm.State() == old(shm.State()).(shmTracker := shm.shmTracker)
  {
    shm.shmTracker := shm.shmTracker - 1;
  }

  /** What one pass of the main loop did with its candidate. */
  datatype Outcome = Discarded | Published | Blocked

  /** One pass of main's loop (generator.c:278-283), entered while quit is 0: colour,
      collect, and publish the solution when findSolution accepts it. A publish
      that would wait on an empty free semaphore is reported as Blocked and
      changes nothing; the generator then sits in WriteToSolutionBuffer until the
      supervisor posts free. */
  method MainLoopPass(shm: Shm, nodes: array<Node>, edges: array<Edge>, nodesCount: int,
                      edgesCount: int, draws: seq<nat>)
    returns (outcome: Outcome, sol: Solution)
    requires shm.quit == 0 && Ring.Bounds(shm.State(), MAX_EDGES)
    requires 0 <= nodesCount <= nodes.Length && 0 <= edgesCount <= edges.Length
    requires |draws| >= nodesCount
    requires AllCovered(nodes[..nodesCount], edges[..edgesCount])
    modifies nodes, shm, shm.slots
    ensures forall i :: 0 <= i < nodesCount ==> nodes[i] == Node(old(nodes[i]).nodeIdx, draws[i] % 3)
    ensures AllCovered(nodes[..nodesCount], edges[..edgesCount])
    ensures var c := Conflicts(nodes[..nodesCount], edges[..edgesCount], edgesCount);
            (outcome == Discarded <==> !(|c| <= MAX_EDGES && (edgesCount == 0 || |c| < edgesCount))) &&
            (outcome != Discarded ==> sol.numberOfEdges == |c| && |c| <= MAX_EDGES == |sol.edges| && sol.edges[..|c|] == c)
    ensures shm.slots == old(shm.slots)
    ensures outcome == Published ==> old(shm.freeSem) > 0
    ensures outcome == Published ==> shm.State() == Ring.Publish(old(shm.State()), sol, MAX_EDGES)
    ensures outcome != Published ==> shm.State() == old(shm.State())
  {
    var ret;
    ret, sol := FindSolution(nodes, edges, nodesCount, edgesCount, draws, ZeroSolution());
    ghost var c := Conflicts(nodes[..nodesCount], edges[..edgesCount], edgesCount);
    if ret != 1 {
      return Discarded, sol;
    }
    assert sol.edges[..|c|] == c;
    if shm.freeSem == 0 {
      return Blocked, sol;
    }
    WriteToSolutionBuffer(shm, sol);
    return Published, sol;
  }
}
