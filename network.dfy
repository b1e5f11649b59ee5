/** Value-level view of the adjacency-list graph that Graph.cc and province.cc build:
    the entities, the specification functions that the imperative code in the Graph and
    Province modules is proved against, and the lemmas about those functions. */
module Network {

  /** One adjacency-list entry: the neighbour's index, the road type character
      ('B' marks a bridge) and the road length, which is only stored and reported. */
  datatype Edge = Edge(head: int, kind: char, weight: int)

  /** A vertex (a town): its name and its adjacency list, in registration order. */
  datatype Vertex = Vertex(name: string, edges: seq<Edge>)

  /** One already-tokenised edge line of a dataset: tail name, head name, type, length. */
  datatype Record = Record(tail: string, head: string, kind: char, weight: int)

  /** One line that the breadth-first traversal reports under a visited vertex. */
  datatype Report = Report(vertex: int, neighbour: int, weight: int, viaBridge: bool)

  predicate InRange(s: seq<int>, n: int) {
    forall i :: 0 <= i < |s| ==> 0 <= s[i] < n
  }

  predicate Distinct(s: seq<int>) {
    forall i, j :: 0 <= i < j < |s| ==> s[i] != s[j]
  }

  /** Every stored neighbour index names a vertex. */
  predicate WellFormed(g: seq<Vertex>) {
    forall u, k :: 0 <= u < |g| && 0 <= k < |g[u].edges| ==> 0 <= g[u].edges[k].head < |g|
  }

  // ---------------------------------------------------------------------------
  // Construction
  // ---------------------------------------------------------------------------

  /** The index the name map yields for name once names[0], names[1], ... were stored
      in turn: a later duplicate overwrites an earlier one, and an unknown name reads
      as the default 0 of std::map's operator[]. */
  function IndexOf(names: seq<string>, name: string): (i: int)
    ensures |names| > 0 ==> 0 <= i < |names|
    ensures name in names ==> names[i] == name
    ensures name !in names ==> i == 0
  {
    if names == [] then 0
    else if names[|names| - 1] == name then |names| - 1
    else
      assert name in names ==> name in names[..|names| - 1];
      IndexOf(names[..|names| - 1], name)
  }

  /** A name listed more than once resolves to its last position. */
  lemma {:induction false} IndexOfIsLast(names: seq<string>, name: string, j: int)
    requires name in names && IndexOf(names, name) < j < |names|
    ensures names[j] != name
    decreases |names|
  {
    var k := |names| - 1;
    if names[k] != name {
      assert name in names[..k];
      if j < k {
        IndexOfIsLast(names[..k], name, j);
      }
    }
  }

  /** The vertex array before any edge is read: vertex i has the i-th name, no edges. */
  function Initial(names: seq<string>): (g: seq<Vertex>)
    ensures |g| == |names| && forall i :: 0 <= i < |names| ==> g[i] == Vertex(names[i], [])
  {
    if names == [] then [] else Initial(names[..|names| - 1]) + [Vertex(names[|names| - 1], [])]
  }

  /** push_back of e on vertex v's adjacency list. */
  function PushBack(g: seq<Vertex>, v: int, e: Edge): seq<Vertex>
    requires 0 <= v < |g|
  {
    g[v := g[v].(edges := g[v].edges + [e])]
  }

  /** Registers one resolved edge record: an entry for the head at the end of the
      tail's list, then an entry for the tail at the end of the head's list. */
  function AddRoad(g: seq<Vertex>, t: int, h: int, kind: char, weight: int): (r: seq<Vertex>)
    requires 0 <= t < |g| && 0 <= h < |g|
    ensures |r| == |g|
  {
    PushBack(PushBack(g, t, Edge(h, kind, weight)), h, Edge(t, kind, weight))
  }

  /** Registering a record renames no vertex and appends to vertex v's list the
      entry for the other endpoint when v is the tail, then the entry for the tail when
      v is the head; every other list is left alone. */
  lemma AddRoadAt(g: seq<Vertex>, t: int, h: int, kind: char, weight: int, v: int)
    requires 0 <= t < |g| && 0 <= h < |g| && 0 <= v < |g|
    ensures AddRoad(g, t, h, kind, weight)[v].name == g[v].name
    ensures AddRoad(g, t, h, kind, weight)[v].edges ==
            g[v].edges + (if t == v then [Edge(h, kind, weight)] else []) + (if h == v then [Edge(t, kind, weight)] else [])
  {
  }

  /** The vertex array once the constructor has registered the first i records of rs. */
  function Build(names: seq<string>, rs: seq<Record>, i: nat): (g: seq<Vertex>)
    requires i <= |rs| && (|names| > 0 || i == 0)
    ensures |g| == |names|
  {
    if i == 0 then Initial(names)
    else
      AddRoad(Build(names, rs, i - 1), IndexOf(names, rs[i - 1].tail), IndexOf(names, rs[i - 1].head), rs[i - 1].kind, rs[i - 1].weight)
  }

  /** The name map after names[0], names[1], ... were stored in turn. */
  function NameMap(names: seq<string>): map<string, int>
    decreases |names|
  {
    if names == [] then map[] else NameMap(names[..|names| - 1])[names[|names| - 1] := |names| - 1]
  }

  /** The name map holds exactly the names read and sends each to the index IndexOf
      gives: its last position. */
  lemma {:induction false} NameMapAgrees(names: seq<string>)
    ensures forall name :: name in NameMap(names) <==> name in names
    ensures Resolves(names, NameMap(names))
    decreases |names|
  {
    if names != [] {
      var front := names[..|names| - 1];
      NameMapAgrees(front);
      assert forall name :: name in names <==> name in front || name == names[|names| - 1];
    }
  }

  /** Every name read is in m, and m sends each key to the index IndexOf gives. */
  ghost predicate Resolves(names: seq<string>, m: map<string, int>) {
    (forall name :: name in names ==> name in m) &&
    (forall name :: name in m ==> m[name] == IndexOf(names, name))
  }

  /** Storing names[i] after names[..i]. */
  lemma NameMapExtend(names: seq<string>, i: int)
    requires 0 <= i < |names|
    ensures NameMap(names[..i + 1]) == NameMap(names[..i])[names[i] := i]
  {
    assert names[..i + 1][..i] == names[..i];
  }

  /** Registering record i, resolved to indices t and h, extends the array built from
      the records before it. */
  lemma BuildStep(names: seq<string>, rs: seq<Record>, i: nat, t: int, h: int)
    requires i < |rs| && |names| > 0
    requires t == IndexOf(names, rs[i].tail) && h == IndexOf(names, rs[i].head)
    ensures 0 <= t < |names| && 0 <= h < |names|
    ensures Build(names, rs, i + 1) == AddRoad(Build(names, rs, i), t, h, rs[i].kind, rs[i].weight)
  {
  }

  /** The entries record r contributes to vertex v's list, in the order they are pushed. */
  function Contribution(names: seq<string>, r: Record, v: int): seq<Edge> {
    var t, h := IndexOf(names, r.tail), IndexOf(names, r.head);
    (if t == v then [Edge(h, r.kind, r.weight)] else []) +
    (if h == v then [Edge(t, r.kind, r.weight)] else [])
  }

  /** Vertex v's list after the first i records: their contributions in input order. */
  function Incident(names: seq<string>, rs: seq<Record>, i: nat, v: int): seq<Edge>
    requires i <= |rs|
  {
    if i == 0 then [] else Incident(names, rs, i - 1, v) + Contribution(names, rs[i - 1], v)
  }

  /** Number of entries over all adjacency lists. */
  function TotalEntries(g: seq<Vertex>): nat {
    if g == [] then 0 else TotalEntries(g[..|g| - 1]) + |g[|g| - 1].edges|
  }

  /** Building keeps vertex v's name. */
  lemma {:induction false} BuildNames(names: seq<string>, rs: seq<Record>, i: nat, v: int)
    requires i <= |rs| && (|names| > 0 || i == 0) && 0 <= v < |names|
    ensures Build(names, rs, i)[v].name == names[v]
  {
    if i > 0 {
      var r := rs[i - 1];
      BuildNames(names, rs, i - 1, v);
      AddRoadAt(Build(names, rs, i - 1), IndexOf(names, r.tail), IndexOf(names, r.head), r.kind, r.weight, v);
    }
  }

  /** Every head stored while building is the index of a vertex. */
  lemma {:induction false} BuildWellFormed(names: seq<string>, rs: seq<Record>, i: nat)
    requires i <= |rs| && (|names| > 0 || i == 0)
    ensures WellFormed(Build(names, rs, i))
  {
    if i > 0 {
      BuildWellFormed(names, rs, i - 1);
      var r := rs[i - 1];
      AddRoadWellFormed(Build(names, rs, i - 1), IndexOf(names, r.tail), IndexOf(names, r.head), r.kind, r.weight);
    }
  }

  lemma AddRoadWellFormed(g: seq<Vertex>, t: int, h: int, kind: char, weight: int)
    requires 0 <= t < |g| && 0 <= h < |g| && WellFormed(g)
    ensures WellFormed(AddRoad(g, t, h, kind, weight))
  {
    var g' := AddRoad(g, t, h, kind, weight);
    forall u, k | 0 <= u < |g'| && 0 <= k < |g'[u].edges| ensures 0 <= g'[u].edges[k].head < |g'| {
      AddRoadAt(g, t, h, kind, weight, u);
      if k < |g[u].edges| {
        assert g'[u].edges[k] == g[u].edges[k];
      }
    }
  }

  /** Each vertex's list is the concatenation, in record order, of the entries the
      records contribute to it: lists keep registration order and no record touches
      a list other than its endpoints'. */
  lemma {:induction false} BuildIncidence(names: seq<string>, rs: seq<Record>, i: nat, v: int)
    requires i <= |rs| && 0 <= v < |names|
    ensures Build(names, rs, i)[v].edges == Incident(names, rs, i, v)
  {
    if i > 0 {
      var r := rs[i - 1];
      var t, h := IndexOf(names, r.tail), IndexOf(names, r.head);
      var tailPart := if t == v then [Edge(h, r.kind, r.weight)] else [];
      var headPart := if h == v then [Edge(t, r.kind, r.weight)] else [];
      BuildIncidence(names, rs, i - 1, v);
      AddRoadAt(Build(names, rs, i - 1), t, h, r.kind, r.weight, v);
      AppendAssoc(Incident(names, rs, i - 1, v), tailPart, headPart);
      assert Contribution(names, r, v) == tailPart + headPart;
    }
  }

  lemma {:induction false} TotalEntriesUpdate(g: seq<Vertex>, v: int, x: Vertex)
    requires 0 <= v < |g|
    ensures TotalEntries(g[v := x]) == TotalEntries(g) - |g[v].edges| + |x.edges|
    decreases |g|
  {
    var k := |g| - 1;
    assert g[v := x][..k] == if v < k then g[..k][v := x] else g[..k];
    if v < k {
      TotalEntriesUpdate(g[..k], v, x);
    }
  }

  /** Each record adds exactly two entries, so after i records the lists hold 2 * i
      entries in all. */
  lemma {:induction false} BuildEntryCount(names: seq<string>, rs: seq<Record>, i: nat)
    requires i <= |rs| && (|names| > 0 || i == 0)
    ensures TotalEntries(Build(names, rs, i)) == 2 * i
  {
    if i == 0 {
      InitialHasNoEntries(Initial(names));
    } else {
      var r := rs[i - 1];
      BuildEntryCount(names, rs, i - 1);
      AddRoadEntries(Build(names, rs, i - 1), IndexOf(names, r.tail), IndexOf(names, r.head), r.kind, r.weight);
    }
  }

  lemma AddRoadEntries(g: seq<Vertex>, t: int, h: int, kind: char, weight: int)
    requires 0 <= t < |g| && 0 <= h < |g|
    ensures TotalEntries(AddRoad(g, t, h, kind, weight)) == TotalEntries(g) + 2
  {
    var g1 := PushBack(g, t, Edge(h, kind, weight));
    TotalEntriesUpdate(g, t, g[t].(edges := g[t].edges + [Edge(h, kind, weight)]));
    TotalEntriesUpdate(g1, h, g1[h].(edges := g1[h].edges + [Edge(t, kind, weight)]));
  }

  lemma {:induction false} InitialHasNoEntries(g: seq<Vertex>)
    requires forall i :: 0 <= i < |g| ==> g[i].edges == []
    ensures TotalEntries(g) == 0
    decreases |g|
  {
    if g != [] {
      InitialHasNoEntries(g[..|g| - 1]);
    }
  }

  // ---------------------------------------------------------------------------
  // Arcs and reachability
  // ---------------------------------------------------------------------------

  /** Vertex u's list holds an entry whose head is v. */
  ghost predicate Arc(g: seq<Vertex>, u: int, v: int) {
    0 <= u < |g| && exists k :: 0 <= k < |g[u].edges| && g[u].edges[k].head == v
  }

  ghost predicate IsPath(g: seq<Vertex>, p: seq<int>) {
    |p| > 0 && forall i :: 0 <= i < |p| - 1 ==> Arc(g, p[i], p[i + 1])
  }

  /** v can be reached from s by following adjacency entries. */
  ghost predicate Reachable(g: seq<Vertex>, s: int, v: int) {
    exists p :: IsPath(g, p) && p[0] == s && p[|p| - 1] == v
  }

  // ---------------------------------------------------------------------------
  // Breadth-first traversal
  // ---------------------------------------------------------------------------

  /** The neighbour indices of a list, in list order. */
  function HeadsOf(es: seq<Edge>): (hs: seq<int>)
    ensures |hs| == |es| && forall k :: 0 <= k < |es| ==> hs[k] == es[k].head
  {
    if es == [] then [] else HeadsOf(es[..|es| - 1]) + [es[|es| - 1].head]
  }

  /** The neighbour indices met while scanning the lists of vs in turn. */
  function Heads(g: seq<Vertex>, vs: seq<int>): seq<int>
    requires InRange(vs, |g|)
    decreases |vs|
  {
    if vs == [] then [] else Heads(g, vs[..|vs| - 1]) + HeadsOf(g[vs[|vs| - 1]].edges)
  }

  /** The distinct elements of s in order of first occurrence. */
  function Dedup(s: seq<int>): (d: seq<int>)
    ensures forall x :: x in d <==> x in s
    ensures Distinct(d)
    ensures s != [] ==> d != [] && d[0] == s[0]
    decreases |s|
  {
    if s == [] then []
    else
      var d := Dedup(s[..|s| - 1]);
      assert forall x :: x in s <==> x in s[..|s| - 1] || x == s[|s| - 1];
      if s[|s| - 1] in d then d else d + [s[|s| - 1]]
  }

  /** The report lines for v's list: one per entry, in list order, the bridge note iff
      the entry's type is 'B'. */
  function ReportsOf(v: int, es: seq<Edge>): (rs: seq<Report>)
    ensures |rs| == |es|
    ensures forall k :: 0 <= k < |es| ==> rs[k] == Report(v, es[k].head, es[k].weight, es[k].kind == 'B')
  {
    if es == [] then []
    else
      var e := es[|es| - 1];
      ReportsOf(v, es[..|es| - 1]) + [Report(v, e.head, e.weight, e.kind == 'B')]
  }

  /** The report lines for the lists of vs, visited in turn. */
  function Reports(g: seq<Vertex>, vs: seq<int>): seq<Report>
    requires InRange(vs, |g|)
    decreases |vs|
  {
    if vs == [] then [] else Reports(g, vs[..|vs| - 1]) + ReportsOf(vs[|vs| - 1], g[vs[|vs| - 1]].edges)
  }

  /** Scanning one more entry of v's list, after the indices met before it. */
  lemma ScanStep(v: int, es: seq<Edge>, j: int, seen: seq<int>)
    requires 0 <= j < |es|
    ensures seen + HeadsOf(es[..j + 1]) == (seen + HeadsOf(es[..j])) + [es[j].head]
    ensures ReportsOf(v, es[..j + 1]) == ReportsOf(v, es[..j]) + [Report(v, es[j].head, es[j].weight, es[j].kind == 'B')]
  {
    assert HeadsOf(es[..j + 1]) == HeadsOf(es[..j]) + [es[j].head];
  }

  /** The state of the scan of a list es after its first j entries, starting from the
      indices seen before it: met lists the indices met so far, pushed + added are its
      distinct elements and added those queued during the scan. */
  ghost predicate Scanning(es: seq<Edge>, seen: seq<int>, j: int, met: seq<int>,
                           pushed: seq<int>, added: seq<int>)
  {
    0 <= j <= |es| && met == seen + HeadsOf(es[..j]) && pushed + added == Dedup(met) &&
    forall k :: 0 <= k < |added| ==> added[k] in HeadsOf(es)
  }

  /** The state of the traversal's inner loop after j entries of current's list:
      Scanning for the ghost bookkeeping, the flags marking what was met, the queue
      extended by the newly scheduled vertices, and one report line per entry. */
  ghost predicate ScanState(current: int, es: seq<Edge>, flags: seq<bool>, toVisit: seq<int>,
                            pushed: seq<int>, seen: seq<int>, j: int, met: seq<int>,
                            scheduled: seq<bool>, queue: seq<int>, lines: seq<Report>, added: seq<int>)
  {
    Scanning(es, seen, j, met, pushed, added) && |scheduled| == |flags| && Marks(scheduled, met) &&
    queue == toVisit + added && lines == ReportsOf(current, es[..j])
  }

  /** One pass of the inner loop keeps its state, whether or not the head was already
      scheduled. */
  lemma ScanAdvance(current: int, es: seq<Edge>, flags: seq<bool>, toVisit: seq<int>,
                    pushed: seq<int>, seen: seq<int>, j: int, met: seq<int>,
                    scheduled: seq<bool>, queue: seq<int>, lines: seq<Report>, added: seq<int>)
    requires ScanState(current, es, flags, toVisit, pushed, seen, j, met, scheduled, queue, lines, added)
    requires j < |es| && 0 <= es[j].head < |scheduled|
    ensures var h := es[j].head;
            var lines' := lines + [Report(current, h, es[j].weight, es[j].kind == 'B')];
            if scheduled[h] then
              ScanState(current, es, flags, toVisit, pushed, seen, j + 1, met + [h], scheduled, queue, lines', added)
            else
              ScanState(current, es, flags, toVisit, pushed, seen, j + 1, met + [h], scheduled[h := true], queue + [h], lines', added + [h])
  {
    var h := es[j].head;
    ScanEntry(es, seen, j, met, pushed, added);
    MarkStep(scheduled, met, h);
    ScanStep(current, es, j, seen);
    if !scheduled[h] {
      AppendAssoc(toVisit, added, [h]);
    }
  }

  /** scheduled[v] records exactly whether vertex v has been met. */
  ghost predicate Marks(scheduled: seq<bool>, met: seq<int>) {
    forall v :: 0 <= v < |scheduled| ==> (scheduled[v] <==> v in met)
  }

  /** Meeting h sets its flag, whether or not it was set before. */
  lemma MarkStep(scheduled: seq<bool>, met: seq<int>, h: int)
    requires Marks(scheduled, met) && 0 <= h < |scheduled|
    ensures scheduled[h] <==> h in met
    ensures Marks(scheduled[h := true], met + [h])
    ensures scheduled[h] ==> Marks(scheduled, met + [h])
  {
    assert forall v :: v in met + [h] <==> v in met || v == h;
  }

  /** Scanning entry j: its head is queued iff it was not met before. */
  lemma ScanEntry(es: seq<Edge>, seen: seq<int>, j: int, met: seq<int>, pushed: seq<int>, added: seq<int>)
    requires Scanning(es, seen, j, met, pushed, added) && j < |es|
    ensures es[j].head in met ==> Scanning(es, seen, j + 1, met + [es[j].head], pushed, added)
    ensures es[j].head !in met ==> Scanning(es, seen, j + 1, met + [es[j].head], pushed, added + [es[j].head])
  {
    var h := es[j].head;
    ScanStep(0, es, j, seen);
    DedupSnoc(met, h);
    assert HeadsOf(es)[j] == h;
    if h !in met {
      var added' := added + [h];
      AppendAssoc(pushed, added, [h]);
      forall k | 0 <= k < |added'| ensures added'[k] in HeadsOf(es) {
        if k < |added| { assert added'[k] == added[k]; }
      }
    }
  }

  /** Meeting one more element: it is kept iff it was not met before. */
  lemma DedupSnoc(s: seq<int>, x: int)
    ensures Dedup(s + [x]) == if x in s then Dedup(s) else Dedup(s) + [x]
  {
    assert (s + [x])[..|s|] == s;
  }

  lemma HeadsSnoc(g: seq<Vertex>, vs: seq<int>, v: int)
    requires InRange(vs, |g|) && 0 <= v < |g|
    ensures InRange(vs + [v], |g|)
    ensures Heads(g, vs + [v]) == Heads(g, vs) + HeadsOf(g[v].edges)
    ensures Reports(g, vs + [v]) == Reports(g, vs) + ReportsOf(v, g[v].edges)
  {
    assert (vs + [v])[..|vs|] == vs;
  }

  /** Every neighbour listed by a vertex of vs is met while scanning vs. */
  lemma {:induction false} HeadsContain(g: seq<Vertex>, vs: seq<int>, u: int, v: int)
    requires InRange(vs, |g|)
    requires u in vs && Arc(g, u, v)
    ensures v in Heads(g, vs)
    decreases |vs|
  {
    var last := vs[|vs| - 1];
    if u == last {
      var k :| 0 <= k < |g[u].edges| && g[u].edges[k].head == v;
      assert HeadsOf(g[u].edges)[k] == v;
    } else {
      assert u in vs[..|vs| - 1];
      HeadsContain(g, vs[..|vs| - 1], u, v);
    }
  }

  /** A vertex list that equals the first occurrences of [start] followed by the
      neighbours of its own members is closed under arcs. */
  lemma ClosedUnderArcs(g: seq<Vertex>, start: int, order: seq<int>)
    requires InRange(order, |g|)
    requires order == Dedup([start] + Heads(g, order))
    ensures forall u, v :: u in order && Arc(g, u, v) ==> v in order
  {
    forall u, v | u in order && Arc(g, u, v) ensures v in order {
      HeadsContain(g, order, u, v);
      assert v in [start] + Heads(g, order);
    }
  }

  lemma {:induction false} PathStaysInside(g: seq<Vertex>, p: seq<int>, order: seq<int>)
    requires IsPath(g, p) && p[0] in order
    requires forall u, v :: u in order && Arc(g, u, v) ==> v in order
    ensures p[|p| - 1] in order
    decreases |p|
  {
    if |p| > 1 {
      var q := p[..|p| - 1];
      assert IsPath(g, q);
      PathStaysInside(g, q, order);
      assert Arc(g, p[|p| - 2], p[|p| - 1]);
    }
  }

  /** Every vertex reachable from start is in a traversal order closed under arcs. */
  lemma ReachableAreVisited(g: seq<Vertex>, start: int, order: seq<int>)
    requires InRange(order, |g|)
    requires order == Dedup([start] + Heads(g, order))
    ensures forall v :: Reachable(g, start, v) ==> v in order
  {
    ClosedUnderArcs(g, start, order);
    forall v | Reachable(g, start, v) ensures v in order {
      var p :| IsPath(g, p) && p[0] == start && p[|p| - 1] == v;
      PathStaysInside(g, p, order);
    }
  }

  /** Visiting current after order and queueing added, met on its list, keeps every
      queued vertex after the first tied to the earlier visited vertex that discovered it. */
  lemma DiscoveryBatch(g: seq<Vertex>, order: seq<int>, current: int, pushed: seq<int>,
                       parent: seq<int>, added: seq<int>)
    requires |order| < |pushed| == |parent| && 0 <= current < |g|
    requires forall m :: 0 < m < |pushed| ==>
      0 <= parent[m] < m && parent[m] < |order| && Arc(g, order[parent[m]], pushed[m])
    requires forall k :: 0 <= k < |added| ==> added[k] in HeadsOf(g[current].edges)
    ensures forall m :: 0 < m < |pushed| + |added| ==>
      var p := parent + Repeat(|order|, |added|);
      0 <= p[m] < m && p[m] < |order| + 1 && Arc(g, (order + [current])[p[m]], (pushed + added)[m])
  {
    var p := parent + Repeat(|order|, |added|);
    forall m | 0 < m < |pushed| + |added|
      ensures 0 <= p[m] < m && p[m] < |order| + 1 && Arc(g, (order + [current])[p[m]], (pushed + added)[m])
    {
      if m < |pushed| {
        assert p[m] == parent[m] && (pushed + added)[m] == pushed[m];
        assert (order + [current])[parent[m]] == order[parent[m]];
      } else {
        var x := added[m - |pushed|];
        assert p[m] == |order| && (pushed + added)[m] == x && (order + [current])[|order|] == current;
        var i :| 0 <= i < |g[current].edges| && HeadsOf(g[current].edges)[i] == x;
      }
    }
  }

  /** Each vertex of order after the first was discovered from an earlier one. */
  ghost predicate DiscoveredInOrder(g: seq<Vertex>, order: seq<int>) {
    forall m :: 0 < m < |order| ==> exists i :: 0 <= i < m && Arc(g, order[i], order[m])
  }

  /** In an order where every later vertex was discovered from an earlier one, every
      vertex is reachable from the first. */
  lemma {:induction false} VisitedAreReachable(g: seq<Vertex>, order: seq<int>, k: int)
    requires 0 <= k < |order|
    requires DiscoveredInOrder(g, order)
    ensures Reachable(g, order[0], order[k])
    decreases k
  {
    if k == 0 {
      assert IsPath(g, [order[0]]);
    } else {
      var i :| 0 <= i < k && Arc(g, order[i], order[k]);
      VisitedAreReachable(g, order, i);
      var p :| IsPath(g, p) && p[0] == order[0] && p[|p| - 1] == order[i];
      var q := PathSnoc(g, p, order[k]);
    }
  }

  lemma PathSnoc(g: seq<Vertex>, p: seq<int>, v: int) returns (q: seq<int>)
    requires IsPath(g, p) && Arc(g, p[|p| - 1], v)
    ensures q == p + [v] && IsPath(g, q) && q[0] == p[0] && q[|q| - 1] == v
  {
    q := p + [v];
    forall i | 0 <= i < |q| - 1 ensures Arc(g, q[i], q[i + 1]) {
      if i < |p| - 1 {
        assert q[i] == p[i] && q[i + 1] == p[i + 1];
      }
    }
  }

  /** The state of the traversal from start once order has been visited and toVisit is
      still queued: seen lists every index met so far (start, then the lists of order in
      turn), order + toVisit its distinct elements, and parent[m] the position in order of
      the vertex whose list first met the m-th queued vertex. */
  ghost predicate Queued(g: seq<Vertex>, start: int, order: seq<int>, toVisit: seq<int>,
                         seen: seq<int>, parent: seq<int>)
  {
    InRange(order, |g|) && InRange(toVisit, |g|) &&
    seen == [start] + Heads(g, order) &&
    order + toVisit == Dedup(seen) &&
    |parent| == |order + toVisit| &&
    forall m :: 0 < m < |order + toVisit| ==>
      0 <= parent[m] < m && parent[m] < |order| && Arc(g, order[parent[m]], (order + toVisit)[m])
  }

  /** Visiting the head of the queue: its list is scanned and the neighbours met for the
      first time (added) are queued behind the rest, discovered from it. */
  lemma VisitStep(g: seq<Vertex>, start: int, order: seq<int>, toVisit: seq<int>,
                  seen: seq<int>, parent: seq<int>, added: seq<int>)
    requires Queued(g, start, order, toVisit, seen, parent) && toVisit != [] && WellFormed(g)
    requires Dedup(seen) + added == Dedup(seen + HeadsOf(g[toVisit[0]].edges))
    requires forall k :: 0 <= k < |added| ==> added[k] in HeadsOf(g[toVisit[0]].edges)
    ensures Queued(g, start, order + [toVisit[0]], toVisit[1..] + added,
                   seen + HeadsOf(g[toVisit[0]].edges), parent + Repeat(|order|, |added|))
    ensures |order + toVisit| <= |order + [toVisit[0]] + (toVisit[1..] + added)| <= |g|
  {
    var current := toVisit[0];
    var order', toVisit' := order + [current], toVisit[1..] + added;
    VisitOrder(g, start, order, toVisit, seen, added);
    PopAppend(order, toVisit, added);
    DiscoveryBatch(g, order, current, order + toVisit, parent, added);
    QueuedBound(order', toVisit', |g|);
  }

  /** The sequence part of VisitStep: the visit order and the queue stay in range and
      still list, in discovery order, each vertex met so far once. */
  lemma VisitOrder(g: seq<Vertex>, start: int, order: seq<int>, toVisit: seq<int>, seen: seq<int>, added: seq<int>)
    requires InRange(order, |g|) && InRange(toVisit, |g|) && toVisit != [] && WellFormed(g)
    requires seen == [start] + Heads(g, order) && order + toVisit == Dedup(seen)
    requires Dedup(seen) + added == Dedup(seen + HeadsOf(g[toVisit[0]].edges))
    requires forall k :: 0 <= k < |added| ==> added[k] in HeadsOf(g[toVisit[0]].edges)
    ensures InRange(order + [toVisit[0]], |g|) && InRange(toVisit[1..] + added, |g|)
    ensures seen + HeadsOf(g[toVisit[0]].edges) == [start] + Heads(g, order + [toVisit[0]])
    ensures (order + [toVisit[0]]) + (toVisit[1..] + added) == Dedup(seen + HeadsOf(g[toVisit[0]].edges))
  {
    var current := toVisit[0];
    PopAppend(order, toVisit, added);
    HeadsSnoc(g, order, current);
    AppendAssoc([start], Heads(g, order), HeadsOf(g[current].edges));
    ListedInRange(g, current, added);
    InRangeAppend(toVisit[1..], added, |g|);
  }

  /** The state the traversal's main loop keeps: Queued for the visit order and the
      queue, the flags marking every vertex scheduled so far, and the report lines of
      the visited vertices. */
  ghost predicate Traversal(g: seq<Vertex>, start: int, order: seq<int>, toVisit: seq<int>, seen: seq<int>,
                            parent: seq<int>, scheduled: seq<bool>, report: seq<Report>)
  {
    Queued(g, start, order, toVisit, seen, parent) && |scheduled| == |g| && Marks(scheduled, seen) &&
    report == Reports(g, order)
  }

  /** Visiting the front of the queue, with the inner loop's results for its list,
      keeps the main loop's state, and the queue holds no more than |g| vertices. */
  lemma TraversalStep(g: seq<Vertex>, start: int, order: seq<int>, toVisit: seq<int>, seen: seq<int>,
                      parent: seq<int>, scheduled: seq<bool>, report: seq<Report>,
                      scheduled': seq<bool>, added: seq<int>, lines: seq<Report>)
    requires WellFormed(g) && Traversal(g, start, order, toVisit, seen, parent, scheduled, report) && toVisit != []
    requires (order + toVisit) + added == Dedup(seen + HeadsOf(g[toVisit[0]].edges))
    requires |scheduled'| == |scheduled| && Marks(scheduled', seen + HeadsOf(g[toVisit[0]].edges))
    requires forall k :: 0 <= k < |added| ==> added[k] in HeadsOf(g[toVisit[0]].edges)
    requires lines == ReportsOf(toVisit[0], g[toVisit[0]].edges)
    ensures Traversal(g, start, order + [toVisit[0]], toVisit[1..] + added, seen + HeadsOf(g[toVisit[0]].edges),
                      parent + Repeat(|order|, |added|), scheduled', report + lines)
    ensures |order + toVisit| <= |order + [toVisit[0]] + (toVisit[1..] + added)| <= |g|
  {
    HeadsSnoc(g, order, toVisit[0]);
    VisitStep(g, start, order, toVisit, seen, parent, added);
  }

  /** Moving the head of the queue to the visited list and queueing added behind the rest
      leaves visited + queued extended by added. */
  lemma PopAppend(order: seq<int>, toVisit: seq<int>, added: seq<int>)
    requires toVisit != []
    ensures (order + [toVisit[0]]) + (toVisit[1..] + added) == (order + toVisit) + added
  {
    assert [toVisit[0]] + toVisit[1..] == toVisit;
    calc {
      (order + [toVisit[0]]) + (toVisit[1..] + added);
      { AppendAssoc(order, [toVisit[0]], toVisit[1..] + added); }
      order + ([toVisit[0]] + (toVisit[1..] + added));
      { AppendAssoc([toVisit[0]], toVisit[1..], added); }
      order + (toVisit + added);
      { AppendAssoc(order, toVisit, added); }
      (order + toVisit) + added;
    }
  }

  /** Indices listed on a vertex's list name vertices. */
  lemma ListedInRange(g: seq<Vertex>, u: int, s: seq<int>)
    requires WellFormed(g) && 0 <= u < |g|
    requires forall k :: 0 <= k < |s| ==> s[k] in HeadsOf(g[u].edges)
    ensures InRange(s, |g|)
  {
    var hs := HeadsOf(g[u].edges);
    forall k | 0 <= k < |s| ensures 0 <= s[k] < |g| {
      assert s[k] in hs;
      var i :| 0 <= i < |hs| && hs[i] == s[k];
      assert hs[i] == g[u].edges[i].head;
    }
  }

  lemma AppendAssoc<T>(a: seq<T>, b: seq<T>, c: seq<T>)
    ensures (a + b) + c == a + (b + c)
  {
  }

  lemma InRangeAppend(s: seq<int>, t: seq<int>, n: int)
    requires InRange(s, n) && InRange(t, n)
    ensures InRange(s + t, n)
  {
  }

  /** Once the queue is empty, the visit order is exactly the vertices reachable from
      start, each discovered from an earlier one. */
  lemma TraversalComplete(g: seq<Vertex>, start: int, order: seq<int>, seen: seq<int>, parent: seq<int>)
    requires Queued(g, start, order, [], seen, parent)
    ensures order != [] && order[0] == start
    ensures Distinct(order)
    ensures order == Dedup([start] + Heads(g, order))
    ensures DiscoveredInOrder(g, order)
    ensures forall v :: v in order <==> Reachable(g, start, v)
  {
    assert order + [] == order;
    forall m | 0 < m < |order| ensures exists i :: 0 <= i < m && Arc(g, order[i], order[m]) {
      assert Arc(g, order[parent[m]], order[m]);
    }
    ReachableAreVisited(g, start, order);
    forall v | v in order ensures Reachable(g, start, v) {
      var k :| 0 <= k < |order| && order[k] == v;
      VisitedAreReachable(g, order, k);
    }
  }

  // ---------------------------------------------------------------------------
  // Topological sort
  // ---------------------------------------------------------------------------

  /** Number of entries of es whose head is w. */
  function Occ(es: seq<Edge>, w: int): nat {
    if es == [] then 0 else Occ(es[..|es| - 1], w) + (if es[|es| - 1].head == w then 1 else 0)
  }

  /** Number of entries with head w in the lists of the vertices below m that are not
      in done: the unvisited-predecessor count of w once done has been emitted. */
  function ArcsInto(g: seq<Vertex>, done: seq<int>, w: int, m: nat): nat
    requires m <= |g|
  {
    if m == 0 then 0
    else ArcsInto(g, done, w, m - 1) + (if m - 1 in done then 0 else Occ(g[m - 1].edges, w))
  }

  /** Number of adjacency entries, over all lists, whose head is w. */
  function InDegree(g: seq<Vertex>, w: int): nat {
    ArcsInto(g, [], w, |g|)
  }

  /** The vertices below m with in-degree zero, in ascending index order. */
  function ReadyUpTo(g: seq<Vertex>, m: nat): (r: seq<int>)
    requires m <= |g|
    ensures |r| <= m
    ensures forall v :: v in r <==> 0 <= v < m && InDegree(g, v) == 0
    ensures forall i, j :: 0 <= i < j < |r| ==> r[i] < r[j]
  {
    if m == 0 then []
    else
      var r := ReadyUpTo(g, m - 1);
      assert forall i :: 0 <= i < |r| ==> r[i] in r;
      r + (if InDegree(g, m - 1) == 0 then [m - 1] else [])
  }

  /** The initial ready queue: every zero in-degree vertex, ascending. */
  function InitialReady(g: seq<Vertex>): seq<int> {
    ReadyUpTo(g, |g|)
  }

  /** Each vertex of out comes after every vertex that has an entry pointing to it. */
  ghost predicate EmittedAfterPredecessors(g: seq<Vertex>, out: seq<int>) {
    forall k, u :: 0 <= k < |out| && Arc(g, u, out[k]) ==> u in out[..k]
  }

  /** order lists every vertex once, and every entry's source precedes its head. */
  ghost predicate IsTopologicalOrder(g: seq<Vertex>, order: seq<int>) {
    |order| == |g| && InRange(order, |g|) && Distinct(order) &&
    forall i, j :: 0 <= i < |order| && 0 <= j < |order| && Arc(g, order[i], order[j]) ==> i < j
  }

  ghost predicate HasTopologicalOrder(g: seq<Vertex>) {
    exists order :: IsTopologicalOrder(g, order)
  }

  /** What the topological sort promises about its emitted vertices out and its cycle
      flag: out is duplicate-free, begins with the initially ready vertices, and emits
      each vertex after its predecessors; without the flag out is a topological order,
      and the flag is raised only when none exists. */
  ghost predicate KahnOutcome(g: seq<Vertex>, out: seq<int>, cycle: bool) {
    InRange(out, |g|) && Distinct(out) &&
    EmittedAfterPredecessors(g, out) &&
    InitialReady(g) <= out &&
    if cycle then |out| < |g| && !HasTopologicalOrder(g) else IsTopologicalOrder(g, out)
  }

  lemma {:induction false} OccPositive(es: seq<Edge>, w: int)
    ensures Occ(es, w) > 0 <==> exists k :: 0 <= k < |es| && es[k].head == w
    decreases |es|
  {
    if es != [] {
      var front := es[..|es| - 1];
      OccPositive(front, w);
      if Occ(front, w) > 0 {
        var k :| 0 <= k < |front| && front[k].head == w;
        assert es[k].head == w;
      }
      forall k | 0 <= k < |front| && es[k].head == w ensures Occ(front, w) > 0 {
        assert front[k].head == w;
      }
    }
  }

  /** Taking one more entry of es adds that entry's own count only. */
  lemma OccStep(es: seq<Edge>, j: int)
    requires 0 <= j < |es|
    ensures forall w :: Occ(es[..j + 1], w) == Occ(es[..j], w) + (if es[j].head == w then 1 else 0)
  {
    assert es[..j + 1][..j] == es[..j];
  }

  /** A longer prefix has at least as many entries with head w. */
  lemma {:induction false} OccMono(es: seq<Edge>, j: int, k: int, w: int)
    requires 0 <= j <= k <= |es|
    ensures Occ(es[..j], w) <= Occ(es[..k], w)
    decreases k - j
  {
    if j < k {
      OccStep(es, j);
      OccMono(es, j + 1, k, w);
    }
  }

  /** Emitting c (not emitted before) removes exactly c's own entries from every count. */
  lemma {:induction false} ArcsIntoEmit(g: seq<Vertex>, done: seq<int>, c: int, w: int, m: nat)
    requires m <= |g| && 0 <= c < |g| && c !in done
    ensures ArcsInto(g, done, w, m) == ArcsInto(g, done + [c], w, m) + (if c < m then Occ(g[c].edges, w) else 0)
    decreases m
  {
    if m > 0 {
      ArcsIntoEmit(g, done, c, w, m - 1);
    }
  }

  /** A zero count means no vertex outside done, below m, has an entry pointing to w. */
  lemma {:induction false} ArcsIntoZero(g: seq<Vertex>, done: seq<int>, w: int, m: nat)
    requires m <= |g| && ArcsInto(g, done, w, m) == 0
    ensures forall u :: 0 <= u < m && u !in done ==> !Arc(g, u, w)
    decreases m
  {
    if m > 0 {
      ArcsIntoZero(g, done, w, m - 1);
      OccPositive(g[m - 1].edges, w);
    }
  }

  /** A positive count means some vertex outside done, below m, points to w. */
  lemma {:induction false} ArcsIntoPositive(g: seq<Vertex>, done: seq<int>, w: int, m: nat)
    requires m <= |g| && ArcsInto(g, done, w, m) > 0
    ensures exists u :: 0 <= u < m && u !in done && Arc(g, u, w)
    decreases m
  {
    if ArcsInto(g, done, w, m - 1) > 0 {
      ArcsIntoPositive(g, done, w, m - 1);
    } else {
      OccPositive(g[m - 1].edges, w);
    }
  }

  /** The front part of a duplicate-free, in-range sequence is too. */
  lemma FrontPart(s: seq<int>, t: seq<int>, n: int)
    requires InRange(s + t, n) && Distinct(s + t)
    ensures InRange(s, n) && Distinct(s)
  {
    forall i | 0 <= i < |s| ensures (s + t)[i] == s[i] {}
  }

  /** Emitting c after done keeps every vertex after its predecessors, provided no
      vertex outside done points to c. */
  lemma EmitExtends(g: seq<Vertex>, done: seq<int>, c: int)
    requires EmittedAfterPredecessors(g, done)
    requires forall u :: 0 <= u < |g| && u !in done ==> !Arc(g, u, c)
    ensures EmittedAfterPredecessors(g, done + [c])
  {
    var out := done + [c];
    forall k, u | 0 <= k < |out| && Arc(g, u, out[k]) ensures u in out[..k] {
      assert out[..k] == if k < |done| then done[..k] else done;
    }
  }

  /** Once all n vertices are emitted, the initial ready queue is a prefix of them. */
  lemma ReadyPrefix(g: seq<Vertex>, out: seq<int>, rest: seq<int>)
    requires InitialReady(g) <= out + rest && |out| == |g|
    ensures InitialReady(g) <= out
  {
    var r := InitialReady(g);
    assert r == (out + rest)[..|r|];
    assert (out + rest)[..|r|] == out[..|r|];
  }

  /** The counts and the newly ready vertices after the decrement loop has handled the
      first j entries of es: each entry's head loses one from its count, and a head
      whose count has just dropped to zero is queued. */
  function Released(es: seq<Edge>, counts: seq<int>, j: nat): (r: (seq<int>, seq<int>))
    requires j <= |es| && forall k :: 0 <= k < |es| ==> 0 <= es[k].head < |counts|
    ensures |r.0| == |counts|
  {
    if j == 0 then (counts, [])
    else
      var (c, pushed) := Released(es, counts, j - 1);
      var w := es[j - 1].head;
      var c' := c[w := c[w] - 1];
      (c', pushed + (if c'[w] == 0 then [w] else []))
  }

  /** When no count can go below zero, the loop leaves each count lowered by the
      entries handled, and queues, once each, exactly the handled heads whose count
      is now zero. */
  lemma {:induction false} ReleaseFacts(es: seq<Edge>, counts: seq<int>, j: nat)
    requires j <= |es| && forall k :: 0 <= k < |es| ==> 0 <= es[k].head < |counts|
    requires forall w :: 0 <= w < |counts| ==> counts[w] >= Occ(es, w)
    ensures forall w :: 0 <= w < |counts| ==> Released(es, counts, j).0[w] == counts[w] - Occ(es[..j], w)
    ensures forall w :: w in Released(es, counts, j).1 <==> 0 <= w < |counts| && Occ(es[..j], w) > 0 && Released(es, counts, j).0[w] == 0
    ensures Distinct(Released(es, counts, j).1)
    decreases j
  {
    if j > 0 {
      ReleaseFacts(es, counts, j - 1);
      var (c, pushed) := Released(es, counts, j - 1);
      var w' := es[j - 1].head;
      OccStep(es, j - 1);
      OccMono(es, j, |es|, w');
      assert es[..|es|] == es;
      assert c[w'] >= 1 && w' !in pushed;
      var r := Released(es, counts, j);
      assert r.1 == pushed + (if r.0[w'] == 0 then [w'] else []);
    }
  }

  /** Appending a duplicate-free sequence that shares nothing with s keeps s + t
      duplicate-free. */
  lemma DistinctAppend(s: seq<int>, t: seq<int>)
    requires Distinct(s) && Distinct(t) && forall x :: x in t ==> x !in s
    ensures Distinct(s + t)
  {
    forall i, j | 0 <= i < j < |s + t| ensures (s + t)[i] != (s + t)[j] {
      if i < |s| && j >= |s| {
        assert (s + t)[j] == t[j - |s|] && t[j - |s|] in t;
      }
    }
  }

  // ---------------------------------------------------------------------------
  // Counting distinct vertices
  // ---------------------------------------------------------------------------

  /** A duplicate-free sequence drawn from a set is no longer than the set is large. */
  lemma {:induction false} DistinctWithin(s: seq<int>, a: set<int>)
    requires Distinct(s) && forall x :: x in s ==> x in a
    ensures |s| <= |a|
    decreases |s|
  {
    if s != [] {
      var x := s[|s| - 1];
      var t := s[..|s| - 1];
      forall y | y in t ensures y in a - {x} {
        var i :| 0 <= i < |t| && t[i] == y;
        assert s[i] == y && s[|s| - 1] == x;
      }
      DistinctWithin(t, a - {x});
    }
  }

  /** The vertex indices 0 .. n-1 in ascending order. */
  function Indices(n: nat): (r: seq<int>)
    ensures |r| == n && forall i :: 0 <= i < n ==> r[i] == i
  {
    if n == 0 then [] else Indices(n - 1) + [n - 1]
  }

  /** k copies of x. */
  function Repeat(x: int, k: nat): (r: seq<int>)
    ensures |r| == k && forall i :: 0 <= i < k ==> r[i] == x
  {
    if k == 0 then [] else Repeat(x, k - 1) + [x]
  }

  /** The vertex indices 0 .. n-1 as a set. */
  function Vertices(n: nat): (r: set<int>)
    ensures forall v :: v in r <==> 0 <= v < n
    ensures |r| == n
  {
    if n == 0 then {} else Vertices(n - 1) + {n - 1}
  }

  /** No more than n distinct vertices are ever queued. */
  lemma QueuedBound(order: seq<int>, queue: seq<int>, n: nat)
    requires InRange(order, n) && InRange(queue, n) && Distinct(order + queue)
    ensures |order + queue| <= n
  {
    DistinctWithin(order + queue, Vertices(n));
  }

  /** A duplicate-free sequence of n vertex indices holds every vertex. */
  lemma Covers(s: seq<int>, n: nat)
    requires Distinct(s) && InRange(s, n) && |s| == n
    ensures forall v :: 0 <= v < n ==> v in s
  {
    forall v | 0 <= v < n ensures v in s {
      if v !in s {
        DistinctWithin(s, Vertices(n) - {v});
      }
    }
  }

  /** A duplicate-free sequence of fewer than n vertex indices misses some vertex. */
  lemma Misses(s: seq<int>, n: nat) returns (v: int)
    requires |s| < n
    ensures 0 <= v < n && v !in s
  {
    var range := Indices(n);
    var elems := set x | x in s;
    if forall x :: 0 <= x < n ==> x in s {
      assert forall x :: x in range ==> x in elems;
      DistinctWithin(range, elems);
      ElementsSize(s);
      assert false;
    }
    v :| 0 <= v < n && v !in s;
  }

  lemma {:induction false} ElementsSize(s: seq<int>)
    ensures |set x | x in s| <= |s|
    decreases |s|
  {
    if s != [] {
      var t := s[..|s| - 1];
      ElementsSize(t);
      assert (set x | x in s) == (set x | x in t) + {s[|s| - 1]};
    }
  }

  // ---------------------------------------------------------------------------
  // Correctness of Kahn's algorithm
  // ---------------------------------------------------------------------------

  /** The state the main loop of the topological sort keeps: out emitted, visitable
      queued, and counts[v] the number of entries pointing to v from vertices not yet
      emitted; a vertex has been queued exactly when its count is zero. */
  ghost predicate Kahn(g: seq<Vertex>, out: seq<int>, visitable: seq<int>, counts: seq<int>) {
    |counts| == |g| && InRange(out + visitable, |g|) && Distinct(out + visitable) &&
    (forall v :: 0 <= v < |g| ==> counts[v] == ArcsInto(g, out, v, |g|)) &&
    (forall v :: 0 <= v < |g| ==> (v in out + visitable <==> counts[v] == 0)) &&
    EmittedAfterPredecessors(g, out) && InitialReady(g) <= out + visitable
  }

  /** The in-degree counts and the initial ready queue start the main loop. */
  lemma KahnStart(g: seq<Vertex>, counts: seq<int>)
    requires |counts| == |g| && forall v :: 0 <= v < |g| ==> counts[v] == InDegree(g, v)
    ensures Kahn(g, [], InitialReady(g), counts)
  {
    var r := InitialReady(g);
    assert [] + r == r;
    forall i | 0 <= i < |r| ensures 0 <= r[i] < |g| {
      assert r[i] in r;
    }
  }

  /** The front of the ready queue is a vertex not yet emitted whose count is zero. */
  lemma KahnFront(g: seq<Vertex>, out: seq<int>, visitable: seq<int>, counts: seq<int>)
    requires Kahn(g, out, visitable, counts) && visitable != []
    ensures 0 <= visitable[0] < |g| && visitable[0] !in out && counts[visitable[0]] == 0
  {
    var s := out + visitable;
    assert s[|out|] == visitable[0];
    forall k | 0 <= k < |out| ensures out[k] != visitable[0] {
      assert s[k] == out[k];
    }
  }

  /** Emitting c, not emitted before, removes exactly c's own entries from each count. */
  lemma EmitCounts(g: seq<Vertex>, out: seq<int>, c: int, counts: seq<int>)
    requires |counts| == |g| && 0 <= c < |g| && c !in out
    requires forall v :: 0 <= v < |g| ==> counts[v] == ArcsInto(g, out, v, |g|)
    ensures forall w :: 0 <= w < |g| ==> counts[w] == ArcsInto(g, out + [c], w, |g|) + Occ(g[c].edges, w)
  {
    forall w | 0 <= w < |g| ensures counts[w] == ArcsInto(g, out + [c], w, |g|) + Occ(g[c].edges, w) {
      ArcsIntoEmit(g, out, c, w, |g|);
    }
  }

  /** ReleaseFacts once every entry of es has been handled. */
  lemma ReleaseAll(es: seq<Edge>, counts: seq<int>)
    requires forall k :: 0 <= k < |es| ==> 0 <= es[k].head < |counts|
    requires forall w :: 0 <= w < |counts| ==> counts[w] >= Occ(es, w)
    ensures forall w :: 0 <= w < |counts| ==> Released(es, counts, |es|).0[w] == counts[w] - Occ(es, w)
    ensures forall w :: w in Released(es, counts, |es|).1 <==> 0 <= w < |counts| && Occ(es, w) > 0 && Released(es, counts, |es|).0[w] == 0
    ensures Distinct(Released(es, counts, |es|).1)
  {
    ReleaseFacts(es, counts, |es|);
    assert es[..|es|] == es;
  }

  /** The vertices the decrement loop queues are new, and afterwards a vertex is queued
      or emitted exactly when its count is zero. */
  lemma MergeReady(prev: seq<int>, es: seq<Edge>, counts: seq<int>, counts': seq<int>, pushed: seq<int>)
    requires |counts'| == |counts|
    requires forall w :: 0 <= w < |counts| ==> counts'[w] == counts[w] - Occ(es, w)
    requires forall w :: w in pushed <==> 0 <= w < |counts| && Occ(es, w) > 0 && counts'[w] == 0
    requires Distinct(pushed) && forall w :: 0 <= w < |counts| ==> counts[w] >= Occ(es, w)
    requires InRange(prev, |counts|) && Distinct(prev)
    requires forall v :: 0 <= v < |counts| ==> (v in prev <==> counts[v] == 0)
    ensures InRange(prev + pushed, |counts|) && Distinct(prev + pushed)
    ensures forall v :: 0 <= v < |counts| ==> (v in prev + pushed <==> counts'[v] == 0)
  {
    forall w | w in pushed ensures w !in prev {
      assert 0 <= w < |counts| && Occ(es, w) > 0;
    }
    DistinctAppend(prev, pushed);
    forall k | 0 <= k < |pushed| ensures 0 <= pushed[k] < |counts| {
      assert pushed[k] in pushed;
    }
    InRangeAppend(prev, pushed, |counts|);
    forall v | 0 <= v < |counts| ensures v in prev + pushed <==> counts'[v] == 0 {
      if Occ(es, v) > 0 {
        assert v !in prev;
      }
    }
  }

  /** Emitting the front of the ready queue and running the decrement loop over its
      entries keeps the main loop's state. */
  lemma KahnEmit(g: seq<Vertex>, out: seq<int>, visitable: seq<int>, counts: seq<int>)
    requires WellFormed(g) && Kahn(g, out, visitable, counts) && visitable != [] && 0 <= visitable[0] < |g|
    ensures var es := g[visitable[0]].edges;
            Kahn(g, out + [visitable[0]], visitable[1..] + Released(es, counts, |es|).1, Released(es, counts, |es|).0)
  {
    var n := |g|;
    var c := visitable[0];
    var es := g[c].edges;
    var (counts', pushed) := Released(es, counts, |es|);
    KahnFront(g, out, visitable, counts);
    EmitCounts(g, out, c, counts);
    ReleaseAll(es, counts);
    MergeReady(out + visitable, es, counts, counts', pushed);
    PopAppend(out, visitable, pushed);
    ArcsIntoZero(g, out, c, n);
    EmitExtends(g, out, c);
    PrefixAppend(InitialReady(g), out + visitable, pushed);
  }

  lemma PrefixAppend(r: seq<int>, s: seq<int>, t: seq<int>)
    requires r <= s
    ensures r <= s + t
  {
    assert (s + t)[..|r|] == s[..|r|];
  }

  /** An empty ready queue with vertices left over: the outcome with the cycle flag. */
  lemma KahnCycle(g: seq<Vertex>, out: seq<int>, counts: seq<int>)
    requires Kahn(g, out, [], counts) && |out| < |g|
    ensures KahnOutcome(g, out, true)
  {
    assert out + [] == out;
    forall v | 0 <= v < |g| && v !in out ensures exists u :: 0 <= u < |g| && u !in out && Arc(g, u, v) {
      ArcsIntoPositive(g, out, v, |g|);
    }
    NoTopologicalOrder(g, out);
  }

  /** Every vertex emitted: the outcome without the cycle flag. */
  lemma KahnDone(g: seq<Vertex>, out: seq<int>, visitable: seq<int>, counts: seq<int>)
    requires Kahn(g, out, visitable, counts) && |out| == |g|
    ensures KahnOutcome(g, out, false)
  {
    FrontPart(out, visitable, |g|);
    ReadyPrefix(g, out, visitable);
    EmittedIsTopological(g, out);
  }

  /** A full duplicate-free emission in which every vertex follows its predecessors is
      a topological order. */
  lemma EmittedIsTopological(g: seq<Vertex>, out: seq<int>)
    requires |out| == |g| && InRange(out, |g|) && Distinct(out)
    requires EmittedAfterPredecessors(g, out)
    ensures IsTopologicalOrder(g, out)
  {
    forall i, j | 0 <= i < |out| && 0 <= j < |out| && Arc(g, out[i], out[j]) ensures i < j {
      assert out[i] in out[..j];
      var i' :| 0 <= i' < j && out[..j][i'] == out[i];
      assert out[i'] == out[i];
    }
  }

  /** In a topological order, if every vertex outside out has a predecessor outside out,
      then no vertex lies outside out: the first one would have to follow another. */
  lemma {:induction false} AllInside(g: seq<Vertex>, order: seq<int>, out: seq<int>, k: int)
    requires IsTopologicalOrder(g, order)
    requires forall v :: 0 <= v < |g| && v !in out ==> exists u :: 0 <= u < |g| && u !in out && Arc(g, u, v)
    requires 0 <= k < |order|
    ensures order[k] in out
    decreases k
  {
    if order[k] !in out {
      var u :| 0 <= u < |g| && u !in out && Arc(g, u, order[k]);
      Covers(order, |g|);
      assert u in order;
      var a :| 0 <= a < |order| && order[a] == u;
      assert Arc(g, order[a], order[k]);
      AllInside(g, order, out, a);
    }
  }

  /** When some vertices were not emitted and each of them has a predecessor that was
      not emitted either, no topological order exists. */
  lemma NoTopologicalOrder(g: seq<Vertex>, out: seq<int>)
    requires |out| < |g|
    requires forall v :: 0 <= v < |g| && v !in out ==> exists u :: 0 <= u < |g| && u !in out && Arc(g, u, v)
    ensures !HasTopologicalOrder(g)
  {
    var v0 := Misses(out, |g|);
    forall order | IsTopologicalOrder(g, order) ensures false {
      Covers(order, |g|);
      assert v0 in order;
      var k0 :| 0 <= k0 < |order| && order[k0] == v0;
      AllInside(g, order, out, k0);
    }
  }
}
