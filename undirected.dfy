/** Consequences of the constructor registering every record at both endpoints: the
    graph it builds is undirected, so every endpoint of a record has a nonzero
    in-degree, and the topological sort emits only the vertices without roads and then
    reports a cycle whenever a single record was read. */
module Undirected {
  import opened Network

  /** Every entry from u to v is matched by an entry from v to u. */
  ghost predicate Symmetric(g: seq<Vertex>) {
    forall u, v :: Arc(g, u, v) ==> Arc(g, v, u)
  }

  /** Registering one record keeps the graph undirected. */
  lemma AddRoadSymmetric(g: seq<Vertex>, t: int, h: int, kind: char, weight: int)
    requires 0 <= t < |g| && 0 <= h < |g| && Symmetric(g)
    ensures Symmetric(AddRoad(g, t, h, kind, weight))
  {
    var g' := AddRoad(g, t, h, kind, weight);
    AddRoadAt(g, t, h, kind, weight, t);
    AddRoadAt(g, t, h, kind, weight, h);
    forall u, v | Arc(g', u, v) ensures Arc(g', v, u) {
      AddRoadAt(g, t, h, kind, weight, u);
      var k :| 0 <= k < |g'[u].edges| && g'[u].edges[k].head == v;
      if k < |g[u].edges| {
        assert g[u].edges[k].head == v && Arc(g, u, v);
        var k' :| 0 <= k' < |g[v].edges| && g[v].edges[k'].head == u;
        AddRoadAt(g, t, h, kind, weight, v);
        assert g'[v].edges[k'] == g[v].edges[k'];
      } else if t == u && k == |g[u].edges| {
        assert g'[h].edges[|g'[h].edges| - 1].head == t;
      } else {
        assert g'[t].edges[|g[t].edges|].head == h;
      }
    }
  }

  /** The constructor builds an undirected graph. */
  lemma {:induction false} BuildSymmetric(names: seq<string>, rs: seq<Record>, i: nat)
    requires i <= |rs| && (|names| > 0 || i == 0)
    ensures Symmetric(Build(names, rs, i))
  {
    if i > 0 {
      var r := rs[i - 1];
      BuildSymmetric(names, rs, i - 1);
      AddRoadSymmetric(Build(names, rs, i - 1), IndexOf(names, r.tail), IndexOf(names, r.head), r.kind, r.weight);
    }
  }

  /** In an undirected graph a vertex has a nonzero in-degree exactly when its own
      list is not empty. */
  lemma UndirectedInDegree(g: seq<Vertex>, w: int)
    requires Symmetric(g) && 0 <= w < |g|
    ensures InDegree(g, w) > 0 <==> g[w].edges != []
  {
    if InDegree(g, w) > 0 {
      ArcsIntoPositive(g, [], w, |g|);
      var u :| 0 <= u < |g| && u !in [] && Arc(g, u, w);
      assert Arc(g, w, u);
    }
    if g[w].edges != [] {
      var u := g[w].edges[0].head;
      assert Arc(g, w, u);
      assert Arc(g, u, w);
      if InDegree(g, w) == 0 {
        ArcsIntoZero(g, [], w, |g|);
      }
    }
  }

  /** Entries registered for record j stay in the list: after i > j records the list
      is at least as long as what record j contributed to it. */
  lemma {:induction false} IncidentKeeps(names: seq<string>, rs: seq<Record>, j: nat, i: nat, v: int)
    requires j < i <= |rs|
    ensures |Incident(names, rs, i, v)| >= |Contribution(names, rs[j], v)|
    decreases i
  {
    if j < i - 1 {
      IncidentKeeps(names, rs, j, i - 1, v);
    }
  }

  /** Both endpoints of every record read get a nonzero predecessor count in the
      topological sort of the built graph. */
  lemma EndpointsCounted(names: seq<string>, rs: seq<Record>, j: nat)
    requires |names| > 0 && j < |rs|
    ensures InDegree(Build(names, rs, |rs|), IndexOf(names, rs[j].tail)) > 0
    ensures InDegree(Build(names, rs, |rs|), IndexOf(names, rs[j].head)) > 0
  {
    var g := Build(names, rs, |rs|);
    var t, h := IndexOf(names, rs[j].tail), IndexOf(names, rs[j].head);
    BuildSymmetric(names, rs, |rs|);
    BuildIncidence(names, rs, |rs|, t);
    BuildIncidence(names, rs, |rs|, h);
    IncidentKeeps(names, rs, j, |rs|, t);
    IncidentKeeps(names, rs, j, |rs|, h);
    UndirectedInDegree(g, t);
    UndirectedInDegree(g, h);
  }

  /** An emitted vertex of an undirected graph has an empty list: a neighbour would
      have to be emitted both before and after it. */
  lemma EmittedAreIsolated(g: seq<Vertex>, out: seq<int>, k: int)
    requires Symmetric(g) && InRange(out, |g|) && Distinct(out) && EmittedAfterPredecessors(g, out)
    requires 0 <= k < |out|
    ensures g[out[k]].edges == []
  {
    if g[out[k]].edges != [] {
      NeighbourBefore(g, out, k);
    }
  }

  /** The contradiction step of EmittedAreIsolated: no emitted vertex of an undirected
      graph actually has a road, but if one did, a neighbour would be emitted before it
      and it would in turn be emitted before that neighbour, so it would occur twice. */
  lemma NeighbourBefore(g: seq<Vertex>, out: seq<int>, k: int)
    requires Symmetric(g) && EmittedAfterPredecessors(g, out)
    requires InRange(out, |g|) && 0 <= k < |out| && g[out[k]].edges != []
    ensures exists a :: 0 <= a < k && out[k] in out[..a]
  {
    var u := g[out[k]].edges[0].head;
    assert Arc(g, out[k], u);
    assert u in out[..k];
    var a :| 0 <= a < k && out[..k][a] == u;
    assert Arc(g, out[a], out[k]);
    assert Arc(g, out[k], out[a]);
    assert out[k] in out[..a];
  }

  /** The topological sort of an undirected graph emits exactly the vertices without
      roads, which form its initial ready queue, and raises the cycle flag exactly
      when some list is not empty. */
  lemma UndirectedTopsort(g: seq<Vertex>, out: seq<int>, cycle: bool)
    requires Symmetric(g) && KahnOutcome(g, out, cycle)
    ensures forall v :: v in out <==> 0 <= v < |g| && g[v].edges == []
    ensures forall k :: 0 <= k < |out| ==> g[out[k]].edges == []
    ensures out == InitialReady(g)
    ensures cycle <==> exists u :: 0 <= u < |g| && g[u].edges != []
  {
    var r := InitialReady(g);
    forall k | 0 <= k < |out| ensures g[out[k]].edges == [] {
      EmittedAreIsolated(g, out, k);
    }
    forall v | v in out ensures 0 <= v < |g| && g[v].edges == [] {
      var k :| 0 <= k < |out| && out[k] == v;
      EmittedAreIsolated(g, out, k);
    }
    forall v | 0 <= v < |g| && g[v].edges == [] ensures v in out {
      UndirectedInDegree(g, v);
      assert v in r;
      var i :| 0 <= i < |r| && r[i] == v;
      assert out[i] == v;
    }
    forall v | v in out ensures v in (set x | x in r) {
      UndirectedInDegree(g, v);
    }
    DistinctWithin(out, set x | x in r);
    ElementsSize(r);
    if cycle {
      var v := Misses(out, |g|);
      assert g[v].edges != [];
    } else {
      Covers(out, |g|);
    }
  }

  /** After at least one record, the last record's tail has a road. */
  lemma {:induction false} BuildHasRoad(names: seq<string>, rs: seq<Record>)
    requires |names| > 0 && rs != []
    ensures exists u :: 0 <= u < |names| && Build(names, rs, |rs|)[u].edges != []
  {
    var r := rs[|rs| - 1];
    var t, h := IndexOf(names, r.tail), IndexOf(names, r.head);
    BuildStep(names, rs, |rs| - 1, t, h);
    AddRoadAt(Build(names, rs, |rs| - 1), t, h, r.kind, r.weight, t);
    assert Build(names, rs, |rs|)[t].edges != [];
  }

  /** Before any record every list is empty. */
  lemma NoRoadsYet(names: seq<string>, rs: seq<Record>)
    requires rs == []
    ensures forall u :: 0 <= u < |names| ==> Build(names, rs, |rs|)[u].edges == []
  {
  }

  /** On the graph g the constructor builds from names and records, the topological
      sort emits only vertices without roads, and raises the cycle flag exactly when at
      least one record was read. */
  lemma BuiltTopsort(names: seq<string>, rs: seq<Record>, g: seq<Vertex>, out: seq<int>, cycle: bool)
    requires (|names| > 0 || rs == []) && g == Build(names, rs, |rs|)
    requires KahnOutcome(g, out, cycle)
    ensures forall k :: 0 <= k < |out| ==> g[out[k]].edges == []
    ensures cycle <==> rs != []
  {
    BuildSymmetric(names, rs, |rs|);
    UndirectedTopsort(g, out, cycle);
    if rs != [] {
      BuildHasRoad(names, rs);
    } else {
      NoRoadsYet(names, rs);
    }
  }
}
