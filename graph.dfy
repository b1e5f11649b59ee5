/** The adjacency-list graph of Graph.cc: an array of vertices, each holding a name and
    an edge list; built once from a dataset, then only read by the traversals. */
module Graph {
  import opened Network

  class Graph {
    var numberOfVertices: nat
    var vertex: array<Vertex>

    ghost predicate Valid()
      reads this, vertex
    {
      vertex.Length == numberOfVertices && WellFormed(vertex[..])
    }

    /** Vertex i gets names[i]; each record is resolved through the name map and pushed
        onto the back of both endpoints' lists. */
    constructor (names: seq<string>, records: seq<Record>)
      requires |names| > 0 || records == []
      ensures Valid() && fresh(vertex)
      ensures numberOfVertices == |names|
      ensures vertex[..] == Build(names, records, |records|)
    {
      var a, nameMap := ReadVertices(names);
      ReadEdges(a, names, records, nameMap);
      BuildWellFormed(names, records, |records|);
      numberOfVertices := |names|;
      vertex := a;
    }

    /** The first loop of the constructor: one vertex per name, and the name map. */
    static method ReadVertices(names: seq<string>) returns (a: array<Vertex>, nameMap: map<string, int>)
      ensures fresh(a) && a[..] == Initial(names)
      ensures nameMap == NameMap(names) && Resolves(names, nameMap)
    {
      var n := |names|;
      a := new Vertex[n];
      nameMap := map[];
      var i := 0;
      while i < n
        invariant 0 <= i <= n
        invariant forall k :: 0 <= k < i ==> a[k] == Vertex(names[k], [])
        invariant nameMap == NameMap(names[..i])
      {
        a[i] := Vertex(names[i], []);
        nameMap := nameMap[names[i] := i];
        NameMapExtend(names, i);
        i := i + 1;
      }
      assert names[..i] == names;
      NameMapAgrees(names);
    }

    /** The second loop of the constructor: each record resolved through the name map
        (an unknown name is inserted with the default index 0) and registered on a. */
    static method ReadEdges(a: array<Vertex>, names: seq<string>, records: seq<Record>, nameMap: map<string, int>)
      requires |names| > 0 || records == []
      requires a[..] == Initial(names) && Resolves(names, nameMap)
      modifies a
      ensures a[..] == Build(names, records, |records|)
    {
      var map' := nameMap;
      var i := 0;
      while i < |records|
        invariant 0 <= i <= |records|
        invariant a[..] == Build(names, records, i)
        invariant Resolves(names, map')
      {
        map' := ReadEdge(a, names, records, i, map');
        i := i + 1;
      }
    }

    /** One pass of the edge loop: record i's endpoints are looked up in the name map
        and the edge is pushed onto both endpoints' lists. */
    static method ReadEdge(a: array<Vertex>, names: seq<string>, records: seq<Record>, i: nat,
                           nameMap: map<string, int>) returns (updated: map<string, int>)
      requires i < |records| && |names| > 0
      requires a[..] == Build(names, records, i) && Resolves(names, nameMap)
      modifies a
      ensures a[..] == Build(names, records, i + 1) && Resolves(names, updated)
    {
      var r := records[i];
      var tailIndex, headIndex;
      tailIndex, updated := Lookup(names, nameMap, r.tail);
      headIndex, updated := Lookup(names, updated, r.head);
      BuildStep(names, records, i, tailIndex, headIndex);
      PushRoad(a, tailIndex, headIndex, r.kind, r.weight);
    }

    /** std::map's operator[] on the name map: a missing name is inserted with the
        default index 0, which is what IndexOf gives for a name never read. */
    static method Lookup(names: seq<string>, nameMap: map<string, int>, name: string)
      returns (index: int, updated: map<string, int>)
      requires Resolves(names, nameMap)
      ensures index == IndexOf(names, name)
      ensures Resolves(names, updated) && name in updated
      ensures updated == if name in nameMap then nameMap else nameMap[name := 0]
    {
      updated := nameMap;
      if name !in updated {
        updated := updated[name := 0];
      }
      index := updated[name];
    }

    /** The two push_back calls that register one resolved edge line in place. */
    static method PushRoad(a: array<Vertex>, t: int, h: int, kind: char, weight: int)
      requires 0 <= t < a.Length && 0 <= h < a.Length
      modifies a
      ensures a[..] == AddRoad(old(a[..]), t, h, kind, weight)
    {
      a[t] := a[t].(edges := a[t].edges + [Edge(h, kind, weight)]);
      a[h] := a[h].(edges := a[h].edges + [Edge(t, kind, weight)]);
    }

    /** Breadth-first traversal from start: the visit order and, under each visited
        vertex, one report line per adjacency entry. */
    method Bfs(start: int) returns (order: seq<int>, report: seq<Report>)
      requires Valid() && 0 <= start < numberOfVertices
      ensures order != [] && order[0] == start
      ensures Distinct(order) && InRange(order, numberOfVertices)
      ensures forall v :: v in order <==> Reachable(vertex[..], start, v)
      ensures order == Dedup([start] + Heads(vertex[..], order))
      ensures DiscoveredInOrder(vertex[..], order)
      ensures report == Reports(vertex[..], order)
    {
      ghost var g := vertex[..];
      assert WellFormed(g) && |g| == numberOfVertices;
      var n := numberOfVertices;
      var scheduled := Unscheduled(n);
      var toVisit := [start];
      MarkStep(scheduled, [], start);
      assert [] + [start] == [start];
      scheduled := scheduled[start := true];
      order, report := [], [];
      ghost var seen, parent := [start], [0];
      assert Heads(g, order) == [] && Dedup(seen) == [start] && Reports(g, order) == [];
      while toVisit != []
        invariant vertex[..] == g
        invariant Traversal(g, start, order, toVisit, seen, parent, scheduled, report)
        decreases n - |order + toVisit|, |toVisit|
      {
        var current := toVisit[0];
        ghost var visited, queued, marks := order, toVisit, scheduled;
        toVisit := toVisit[1..];
        order := order + [current];
        var lines;
        ghost var added;
        scheduled, toVisit, lines, added := ScanNeighbours(current, vertex[current].edges, scheduled, toVisit, visited + queued, seen);
        TraversalStep(g, start, visited, queued, seen, parent, marks, report, scheduled, added, lines);
        report := report + lines;
        seen := seen + HeadsOf(g[current].edges);
        parent := parent + Repeat(|visited|, |added|);
      }
      assert vertex[..] == g;
      TraversalComplete(g, start, order, seen, parent);
    }

    /** The traversal's flags, all cleared: no vertex is scheduled yet. */
    static method Unscheduled(n: nat) returns (scheduled: seq<bool>)
      ensures |scheduled| == n && Marks(scheduled, [])
    {
      scheduled := [];
      var i := 0;
      while i < n
        invariant 0 <= i <= n && |scheduled| == i
        invariant forall v :: 0 <= v < i ==> !scheduled[v]
      {
        scheduled := scheduled + [false];
        i := i + 1;
      }
    }

    /** The inner loop of the traversal over current's list edges: one report line per
        entry, and each neighbour not yet scheduled is scheduled and queued behind
        toVisit. pushed lists every vertex scheduled so far and seen every index met so far. */
    static method ScanNeighbours(current: int, edges: seq<Edge>, flags: seq<bool>, toVisit: seq<int>,
                                 ghost pushed: seq<int>, ghost seen: seq<int>)
      returns (scheduled: seq<bool>, queue: seq<int>, lines: seq<Report>, ghost added: seq<int>)
      requires forall k :: 0 <= k < |edges| ==> 0 <= edges[k].head < |flags|
      requires pushed == Dedup(seen)
      requires Marks(flags, seen)
      ensures queue == toVisit + added
      ensures pushed + added == Dedup(seen + HeadsOf(edges))
      ensures |scheduled| == |flags| && Marks(scheduled, seen + HeadsOf(edges))
      ensures forall k :: 0 <= k < |added| ==> added[k] in HeadsOf(edges)
      ensures lines == ReportsOf(current, edges)
    {
      scheduled, queue, lines, added := flags, toVisit, [], [];
      ghost var met := seen;
      assert seen + HeadsOf(edges[..0]) == seen && pushed + added == pushed && toVisit + added == toVisit;
      var j := 0;
      while j < |edges|
        invariant ScanState(current, edges, flags, toVisit, pushed, seen, j, met, scheduled, queue, lines, added)
      {
        var head := edges[j].head;
        ScanAdvance(current, edges, flags, toVisit, pushed, seen, j, met, scheduled, queue, lines, added);
        lines := lines + [Report(current, head, edges[j].weight, edges[j].kind == 'B')];
        if !scheduled[head] {
          queue, added := queue + [head], added + [head];
          scheduled := scheduled[head := true];
        }
        met := met + [head];
        j := j + 1;
      }
      assert edges[..j] == edges;
    }

    /** Kahn's topological sort: the vertices emitted in order and whether the ready
        queue ran dry before every vertex was emitted. */
    method Topsort() returns (out: seq<int>, cycle: bool)
      requires Valid()
      ensures KahnOutcome(vertex[..], out, cycle)
    {
      ghost var g := vertex[..];
      var n := numberOfVertices;
      var unvisitedPredecessors := CountPredecessors();
      var visitable := ReadyVertices(unvisitedPredecessors, g);
      KahnStart(g, unvisitedPredecessors);
      out := [];
      var i := 0;
      while i < n
        invariant i <= n && i == |out| && vertex[..] == g && |g| == n
        invariant Kahn(g, out, visitable, unvisitedPredecessors)
      {
        if visitable == [] {
          KahnCycle(g, out, unvisitedPredecessors);
          cycle := true;
          return;
        }
        KahnFront(g, out, visitable, unvisitedPredecessors);
        KahnEmit(g, out, visitable, unvisitedPredecessors);
        var current := visitable[0];
        visitable := visitable[1..];
        out := out + [current];
        unvisitedPredecessors, visitable := ReleaseSuccessors(vertex[current].edges, unvisitedPredecessors, visitable);
        i := i + 1;
      }
      cycle := false;
      KahnDone(g, out, visitable, unvisitedPredecessors);
    }

    /** The first phase of the sort: every count starts at zero, then each entry of each
        list adds one to its head's count, leaving each vertex's in-degree. */
    method CountPredecessors() returns (counts: seq<int>)
      requires Valid()
      ensures |counts| == numberOfVertices
      ensures forall w :: 0 <= w < numberOfVertices ==> counts[w] == InDegree(vertex[..], w)
    {
      ghost var g := vertex[..];
      var n := numberOfVertices;
      counts := [];
      var i := 0;
      while i < n
        invariant 0 <= i <= n && |counts| == i
        invariant forall w :: 0 <= w < i ==> counts[w] == 0
      {
        counts := counts + [0];
        i := i + 1;
      }
      i := 0;
      while i < n
        invariant 0 <= i <= n && |counts| == n
        invariant forall w :: 0 <= w < n ==> counts[w] == ArcsInto(g, [], w, i)
      {
        counts := CountHeads(vertex[i].edges, counts);
        i := i + 1;
      }
    }

    /** The inner counting loop over one list: one more for each entry's head. */
    static method CountHeads(edges: seq<Edge>, counts: seq<int>) returns (counts': seq<int>)
      requires forall k :: 0 <= k < |edges| ==> 0 <= edges[k].head < |counts|
      ensures |counts'| == |counts|
      ensures forall w :: 0 <= w < |counts| ==> counts'[w] == counts[w] + Occ(edges, w)
    {
      counts' := counts;
      assert edges[..0] == [];
      var j := 0;
      while j < |edges|
        invariant 0 <= j <= |edges| && |counts'| == |counts|
        invariant forall w :: 0 <= w < |counts| ==> counts'[w] == counts[w] + Occ(edges[..j], w)
      {
        OccStep(edges, j);
        var head := edges[j].head;
        counts' := counts'[head := counts'[head] + 1];
        j := j + 1;
      }
      assert edges[..j] == edges;
    }

    /** The initial ready queue: the vertices whose count is zero, in index order. */
    static method ReadyVertices(counts: seq<int>, ghost g: seq<Vertex>) returns (visitable: seq<int>)
      requires |counts| == |g| && forall w :: 0 <= w < |g| ==> counts[w] == InDegree(g, w)
      ensures visitable == InitialReady(g)
    {
      visitable := [];
      var i := 0;
      while i < |counts|
        invariant 0 <= i <= |counts| && visitable == ReadyUpTo(g, i)
      {
        if counts[i] == 0 {
          visitable := visitable + [i];
        }
        i := i + 1;
      }
    }

    /** The inner loop of the sort over the emitted vertex's list: each entry's head
        loses one from its count, and a head whose count drops to zero is queued. */
    static method ReleaseSuccessors(edges: seq<Edge>, counts: seq<int>, visitable: seq<int>)
      returns (counts': seq<int>, visitable': seq<int>)
      requires forall k :: 0 <= k < |edges| ==> 0 <= edges[k].head < |counts|
      ensures counts' == Released(edges, counts, |edges|).0
      ensures visitable' == visitable + Released(edges, counts, |edges|).1
    {
      counts', visitable' := counts, visitable;
      ghost var pushed: seq<int> := [];
      assert visitable + pushed == visitable;
      var j := 0;
      while j < |edges|
        invariant 0 <= j <= |edges|
        invariant counts' == Released(edges, counts, j).0 && pushed == Released(edges, counts, j).1
        invariant visitable' == visitable + pushed
      {
        var head := edges[j].head;
        counts' := counts'[head := counts'[head] - 1];
        if counts'[head] == 0 {
          AppendAssoc(visitable, pushed, [head]);
          visitable', pushed := visitable' + [head], pushed + [head];
        }
        assert counts' == Released(edges, counts, j + 1).0 && pushed == Released(edges, counts, j + 1).1;
        j := j + 1;
      }
    }
  }
}
