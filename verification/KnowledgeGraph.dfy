/** The in-memory knowledge graph: nodes by id, and the edge lists filed once under their source and
    once under their target. An unordered map is walked by peeling keys in an arbitrary order. */
module KnowledgeGraphs {
  import opened Wrappers
  import opened Clock
  import opened Graph
  import opened BreadthFirst

  /** Exports keep whole seconds of the creation time only. */
  function WholeSeconds(n: Node): Node {
    n.(createdAt := Seconds(n.createdAt) * TICKS_PER_SECOND)
  }

  /** A creation time that has been exported and imported is less than a second nearer to zero. */
  lemma LessThanASecondLost(n: Node)
    ensures WholeSeconds(n) == n.(createdAt := WholeSeconds(n).createdAt)
    ensures n.createdAt >= 0 ==> 0 <= n.createdAt - WholeSeconds(n).createdAt < 1_000_000_000
    ensures n.createdAt <= 0 ==> 0 <= WholeSeconds(n).createdAt - n.createdAt < 1_000_000_000
  {
    SecondsTruncate(n.createdAt);
  }

  /** An exported graph, record by record; node timestamps are in seconds. */
  datatype Records = Records(nodes: seq<Node>, edges: seq<Edge>)

  /** The search result promised for a start node: exactly the registered nodes other than the start
      within the bound, each once, nearer ones first. */
  ghost predicate IsRelated(nodes: map<Id, Node>, v: View, start: Id, maxDepth: nat, results: seq<Node>) {
    && (forall i, j | 0 <= i < j < |results| :: results[i].id != results[j].id)
    && (forall n: Node :: n in results <==>
                          n.id in nodes && nodes[n.id] == n && n.id != start && v.Reaches(start, n.id, maxDepth))
    && (forall i, j, m: nat | 0 <= i < j < |results| ::
          v.Reaches(start, results[j].id, m) ==> v.Reaches(start, results[i].id, m))
  }

  /** Without a filter, and with room for one link, every registered neighbour of the start is reported. */
  lemma NeighboursReported(nodes: map<Id, Node>, edges: multiset<Edge>, start: Id, maxDepth: nat, results: seq<Node>,
                           e: Edge, id: Id)
    requires IsRelated(nodes, View(edges, None), start, maxDepth, results) && maxDepth >= 1
    requires e in edges && Joins(e, start, id) && id != start && id in nodes && nodes[id].id == id
    ensures nodes[id] in results
  {
    var v := View(edges, None);
    LinkedWhenJoined(edges, e.relation, start, id);
    ReachesInOne(v, start, id);
    ReachesFurther(v, start, id, 1, maxDepth);
  }

  /** With a filter, a search of depth one reports exactly the registered neighbours over that relation. */
  lemma FilteredNeighbours(nodes: map<Id, Node>, edges: multiset<Edge>, r: RelationType, start: Id, results: seq<Node>, n: Node)
    requires IsRelated(nodes, View(edges, Some(r)), start, 1, results)
    ensures n in results <==>
            n.id in nodes && nodes[n.id] == n && n.id != start && exists e :: e in edges && e.relation == r && Joins(e, start, n.id)
  {
    LinkedWhenJoined(edges, r, start, n.id);
    ReachesInOne(View(edges, Some(r)), start, n.id);
  }

  /** A completed discovery log reports what was promised. */
  lemma ReportedIsRelated(nodes: map<Id, Node>, v: View, start: Id, maxDepth: nat, log: seq<Entry>)
    requires forall id | id in nodes :: nodes[id].id == id
    requires Invariant(v, start, maxDepth, log, |log|)
    ensures IsRelated(nodes, v, start, maxDepth, Registered(nodes, log))
  {
    var results := Registered(nodes, log);
    var at := RegisteredFromLog(nodes, log);
    forall n: Node
      ensures n in results <==>
              n.id in nodes && nodes[n.id] == n && n.id != start && v.Reaches(start, n.id, maxDepth)
    {
      v.ReachesIsWithin(start, n.id, maxDepth);
      Finished(v, start, maxDepth, log, n.id);
      if n in results {
        var i :| 0 <= i < |results| && results[i] == n;
        assert log[at[i]].0 == n.id;
      }
      if n.id in nodes && nodes[n.id] == n && n.id != start && Logged(log, n.id) {
        var m :| 0 <= m < |log| && log[m].0 == n.id;
        var i :| 0 <= i < |at| && at[i] == m;
        assert results[i] == n;
      }
    }
    forall i, j, m: nat | 0 <= i < j < |results| && v.Reaches(start, results[j].id, m)
      ensures v.Reaches(start, results[i].id, m)
    {
      NearerFirst(v, start, maxDepth, log, at[i], at[j], m);
    }
  }

  lemma NearerFirst(v: View, start: Id, maxDepth: nat, log: seq<Entry>, a: nat, b: nat, m: nat)
    requires Invariant(v, start, maxDepth, log, |log|) && a < b < |log|
    requires v.Reaches(start, log[b].0, m)
    ensures v.Reaches(start, log[a].0, m)
  {
    v.ReachesIsWithin(start, log[b].0, m);
    v.ReachesIsWithin(start, log[a].0, m);
    assert Exact(v, start, log[a].0, log[a].1) && Exact(v, start, log[b].0, log[b].1);
    if m < log[b].1 {
      v.WithinMonotone(start, log[b].0, m, log[b].1 - 1);
    }
    v.WithinMonotone(start, log[a].0, log[a].1, m);
  }

  // ---- records

  function InSeconds(n: Node): Node {
    n.(createdAt := Seconds(n.createdAt))
  }

  function FromSeconds(n: Node): Node {
    n.(createdAt := n.createdAt * TICKS_PER_SECOND)
  }

  /** Every node is exported once, with its timestamp in whole seconds; the exported edges of one
      source are its outgoing list, in order. */
  ghost predicate IsExport(nodes: map<Id, Node>, out: Adjacency, r: Records) {
    && ListsNodes(nodes, {}, r.nodes)
    && Selects(out, true, r.edges)
  }

  /** The records are those of the nodes whose ids are not among `left`, each once. */
  ghost predicate ListsNodes(nodes: map<Id, Node>, left: set<Id>, ns: seq<Node>) {
    && (forall i, j | 0 <= i < j < |ns| :: ns[i].id != ns[j].id)
    && (forall n: Node :: n in ns <==> n.id in nodes && n.id !in left && n == InSeconds(nodes[n.id]))
  }

  lemma ListsNone(nodes: map<Id, Node>)
    ensures ListsNodes(nodes, nodes.Keys, [])
  {
  }

  lemma ListsOneMore(nodes: map<Id, Node>, left: set<Id>, ns: seq<Node>, id: Id)
    requires (forall c | c in nodes :: nodes[c].id == c) && ListsNodes(nodes, left, ns) && id in left && id in nodes
    ensures ListsNodes(nodes, left - {id}, ns + [InSeconds(nodes[id])])
  {
    forall i | 0 <= i < |ns|
      ensures ns[i].id != id
    {
      assert ns[i] in ns;
    }
  }

  /** Later node records overwrite earlier ones with the same id. */
  function NodesOf(ns: seq<Node>): map<Id, Node> {
    if ns == [] then map[]
    else NodesOf(ns[..|ns| - 1])[ns[|ns| - 1].id := FromSeconds(ns[|ns| - 1])]
  }

  /** Of several records of an id the last one counts, in nanoseconds. */
  lemma {:induction false} LastRecordCounts(ns: seq<Node>, id: Id)
    ensures id in NodesOf(ns) <==> exists i :: 0 <= i < |ns| && ns[i].id == id
    ensures forall i | 0 <= i < |ns| && ns[i].id == id && (forall j | i < j < |ns| :: ns[j].id != id) ::
              id in NodesOf(ns) && NodesOf(ns)[id] == ns[i].(createdAt := ns[i].createdAt * 1_000_000_000)
  {
    if ns == [] {
    } else {
      var most := ns[..|ns| - 1];
      LastRecordCounts(most, id);
      assert forall i | 0 <= i < |most| :: most[i] == ns[i];
    }
  }

  ghost predicate IsImport(r: Records, nodes: map<Id, Node>, out: Adjacency, inc: Adjacency) {
    && nodes == NodesOf(r.nodes)
    && EdgeBag(out) == multiset(r.edges)
    && Selects(out, true, r.edges)
    && Selects(inc, false, r.edges)
  }

  lemma {:induction false} NodesOfDistinct(ns: seq<Node>)
    requires forall i, j | 0 <= i < j < |ns| :: ns[i].id != ns[j].id
    ensures NodesOf(ns).Keys == set n | n in ns :: n.id
    ensures forall n | n in ns :: NodesOf(ns)[n.id] == FromSeconds(n)
  {
    if ns == [] {
    } else {
      var most, last := ns[..|ns| - 1], ns[|ns| - 1];
      NodesOfDistinct(most);
      assert ns == most + [last];
    }
  }

  /** Importing an export gives the graph back: the same nodes up to whole seconds, the same outgoing
      lists in order, the same incoming lists as bags, and the same counts. */
  lemma ImportOfExport(nodes: map<Id, Node>, out: Adjacency, inc: Adjacency, r: Records,
                       nodes': map<Id, Node>, out': Adjacency, inc': Adjacency)
    requires (forall id | id in nodes :: nodes[id].id == id) && Mirrored(out, inc) && Mirrored(out', inc')
    requires IsExport(nodes, out, r) && IsImport(r, nodes', out', inc')
    ensures nodes' == map id | id in nodes :: WholeSeconds(nodes[id])
    ensures |nodes'| == |nodes|
    ensures forall k :: EdgesAt(out', k) == EdgesAt(out, k)
    ensures forall k :: multiset(EdgesAt(inc', k)) == multiset(EdgesAt(inc, k))
    ensures |EdgeBag(out')| == |EdgeBag(out)|
  {
    ImportedNodes(nodes, r.nodes);
    assert nodes'.Keys == nodes.Keys;
    SameLists(out, out', inc, inc');
  }

  lemma ImportedNodes(nodes: map<Id, Node>, ns: seq<Node>)
    requires forall id | id in nodes :: nodes[id].id == id
    requires forall i, j | 0 <= i < j < |ns| :: ns[i].id != ns[j].id
    requires forall n: Node :: n in ns <==> n.id in nodes && n == InSeconds(nodes[n.id])
    ensures NodesOf(ns) == map id | id in nodes :: WholeSeconds(nodes[id])
  {
    NodesOfDistinct(ns);
    forall id | id in nodes
      ensures id in NodesOf(ns) && NodesOf(ns)[id] == WholeSeconds(nodes[id])
    {
      assert InSeconds(nodes[id]) in ns;
    }
  }

  lemma SameLists(out: Adjacency, out': Adjacency, inc: Adjacency, inc': Adjacency)
    requires Mirrored(out, inc) && Mirrored(out', inc')
    requires forall k :: EdgesAt(out', k) == EdgesAt(out, k)
    ensures EdgeBag(out') == EdgeBag(out)
    ensures forall k :: multiset(EdgesAt(inc', k)) == multiset(EdgesAt(inc, k))
  {
    forall e: Edge
      ensures EdgeBag(out')[e] == EdgeBag(out)[e]
    {
      EdgeBagCount(out', true, e);
      EdgeBagCount(out, true, e);
    }
    assert EdgeBag(out') == EdgeBag(out);
    forall k
      ensures multiset(EdgesAt(inc', k)) == multiset(EdgesAt(inc, k))
    {
      forall e: Edge
        ensures multiset(EdgesAt(inc', k))[e] == multiset(EdgesAt(inc, k))[e]
      {
        FiledCount(inc', k, e);
        FiledCount(inc, k, e);
      }
    }
  }

  lemma FiledCount(inc: Adjacency, k: Id, e: Edge)
    requires Filed(inc, false)
    ensures multiset(EdgesAt(inc, k))[e] == if e.toId == k then EdgeBag(inc)[e] else 0
  {
    EdgeBagCount(inc, false, e);
    if e.toId != k {
      assert e !in EdgesAt(inc, k);
    }
  }

  /** Each list of a map is the selection of the edges with that endpoint, in order. */
  ghost predicate Selects(m: Adjacency, from: bool, es: seq<Edge>) {
    forall k :: EdgesAt(m, k) == Keep(es, if from then From(k) else To(k))
  }

  lemma SelectsNext(m: Adjacency, from: bool, es: seq<Edge>, e: Edge)
    requires Selects(m, from, es)
    ensures Selects(File(m, from, e), from, es + [e])
  {
    forall k
      ensures EdgesAt(File(m, from, e), k) == Keep(es + [e], if from then From(k) else To(k))
    {
      KeepAppend(es, [e], if from then From(k) else To(k));
    }
  }

  /** What filing edge records one by one maintains. */
  ghost predicate FiledRecords(es: seq<Edge>, out: Adjacency, inc: Adjacency) {
    Mirrored(out, inc) && EdgeBag(out) == multiset(es) && Selects(out, true, es) && Selects(inc, false, es)
  }

  lemma ImportStep(es: seq<Edge>, i: nat, out: Adjacency, inc: Adjacency)
    requires i < |es| && FiledRecords(es[..i], out, inc)
    ensures FiledRecords(es[..i + 1], File(out, true, es[i]), File(inc, false, es[i]))
  {
    hide EdgeBag, Selects, Filed, File;
    FileEdge(out, true, es[i]);
    FileEdge(inc, false, es[i]);
    SelectsNext(out, true, es[..i], es[i]);
    SelectsNext(inc, false, es[..i], es[i]);
    assert es[..i + 1] == es[..i] + [es[i]];
  }

  /** Appending the list of one source to the exported edges changes the selection of that source only. */
  lemma KeepWithList(es: seq<Edge>, list: seq<Edge>, k: Id, c: Id)
    requires forall e | e in list :: e.fromId == k
    ensures Keep(es + list, From(c)) == Keep(es, From(c)) + if c == k then list else []
  {
    KeepAppend(es, list, From(c));
    KeepUniform(list, From(c));
  }

  /** Emptying one more list into the exported edges. */
  lemma ExportStep(out: Adjacency, left: Adjacency, es: seq<Edge>, k: Id)
    requires Filed(out, true) && k in left && left.Keys <= out.Keys
    requires forall c :: Keep(es, From(c)) == if c in left then [] else EdgesAt(out, c)
    ensures forall c :: Keep(es + out[k], From(c)) == if c in left - {k} then [] else EdgesAt(out, c)
  {
    forall c
      ensures Keep(es + out[k], From(c)) == if c in left - {k} then [] else EdgesAt(out, c)
    {
      assert forall e | e in out[k] :: End(e, true) == k;
      KeepWithList(es, out[k], k, c);
    }
  }

  /** An unfiltered search reports every registered neighbour; one filtered by a relation, of depth one, only
      what an edge of this relation joins to the start. */
  ghost predicate ShowsNeighbours(nodes: map<Id, Node>, edges: multiset<Edge>, filter: Option<RelationType>, start: Id,
                                  maxDepth: nat, results: seq<Node>) {
    && (filter.None? && maxDepth >= 1 ==>
          forall e, id | e in edges && Joins(e, start, id) && id != start && id in nodes :: nodes[id] in results)
    && (filter.Some? && maxDepth == 1 ==>
          forall n | n in results :: exists e :: e in edges && e.relation == filter.value && Joins(e, start, n.id))
  }

  class KnowledgeGraph {
    var nodes: map<Id, Node>
    var outgoing: Adjacency
    var incoming: Adjacency

    ghost predicate Valid()
      reads this
    {
      && (forall id | id in nodes :: nodes[id].id == id)
      && Mirrored(outgoing, incoming)
    }

    constructor ()
      ensures Valid()
      ensures nodes == map[] && outgoing == map[] && incoming == map[]
    {
      nodes, outgoing, incoming := map[], map[], map[];
    }

    method AddNode(node: Node)
      requires Valid()
      modifies this`nodes
      ensures Valid() && nodes == old(nodes)[node.id := node]
    {
      nodes := nodes[node.id := node];
    }

    method AddEdge(edge: Edge)
      requires Valid()
      modifies this`outgoing, this`incoming
      ensures Valid()
      ensures outgoing == old(outgoing)[edge.fromId := EdgesAt(old(outgoing), edge.fromId) + [edge]]
      ensures incoming == old(incoming)[edge.toId := EdgesAt(old(incoming), edge.toId) + [edge]]
      ensures EdgeBag(outgoing) == old(EdgeBag(outgoing)) + multiset{edge}
    {
      FileEdge(outgoing, true, edge);
      FileEdge(incoming, false, edge);
      outgoing := outgoing[edge.fromId := EdgesAt(outgoing, edge.fromId) + [edge]];
      incoming := incoming[edge.toId := EdgesAt(incoming, edge.toId) + [edge]];
    }

    /** Erases the edges that fail a test from every list of one map. */
    static method EraseEverywhere(m: Adjacency, t: EndTest) returns (less: Adjacency)
      ensures less.Keys == m.Keys && forall k | k in m :: less[k] == Keep(m[k], t)
    {
      less := m;
      var keys := m.Keys;
      while keys != {}
        invariant keys <= m.Keys == less.Keys
        invariant forall k | k in m :: less[k] == if k in keys then m[k] else Keep(m[k], t)
      {
        var k :| k in keys;
        less := less[k := Keep(less[k], t)];
        keys := keys - {k};
      }
    }

    static lemma ErasedIsWithout(m: Adjacency, less: Adjacency, from: bool, id: Id)
      requires less.Keys == m.Keys - {id}
      requires forall k | k in m - {id} :: less[k] == Keep((m - {id})[k], if from then NotTo(id) else NotFrom(id))
      ensures less == WithoutNode(m, from, id)
    {
      assert forall k | k in m && k != id :: k in m - {id};
    }

    /** Removes the node and exactly its incident edges; all other lists keep their order. */
    method RemoveNode(id: Id)
      requires Valid()
      modifies this
      ensures Valid()
      ensures nodes == old(nodes) - {id}
      ensures outgoing == WithoutNode(old(outgoing), true, id)
      ensures incoming == WithoutNode(old(incoming), false, id)
      ensures forall e: Edge ::
                EdgeBag(outgoing)[e] == if e.fromId == id || e.toId == id then 0 else old(EdgeBag(outgoing))[e]
    {
      WithoutMirrored(outgoing, incoming, id);
      nodes := nodes - {id};
      outgoing := outgoing - {id};
      incoming := incoming - {id};
      outgoing := EraseEverywhere(outgoing, NotTo(id));
      incoming := EraseEverywhere(incoming, NotFrom(id));
      ErasedIsWithout(old(outgoing), outgoing, true, id);
      ErasedIsWithout(old(incoming), incoming, false, id);
    }

    method Clear()
      modifies this
      ensures Valid()
      ensures nodes == map[] && outgoing == map[] && incoming == map[]
    {
      nodes, outgoing, incoming := map[], map[], map[];
    }

    method EdgeCount() returns (count: nat)
      requires Valid()
      ensures count == |EdgeBag(outgoing)| == |EdgeBag(incoming)|
    {
      count := 0;
      var rest := outgoing;
      while rest != map[]
        invariant count + |EdgeBag(rest)| == |EdgeBag(outgoing)|
        decreases |rest|
      {
        var k :| k in rest;
        EdgeBagPeel(rest, k);
        count := count + |rest[k]|;
        rest := rest - {k};
      }
    }

    method FindRelatedEntities(start: Id, maxDepth: nat, filter: Option<RelationType>) returns (results: seq<Node>)
      requires Valid()
      ensures IsRelated(nodes, View(EdgeBag(outgoing), filter), start, maxDepth, results)
      ensures ShowsNeighbours(nodes, EdgeBag(outgoing), filter, start, maxDepth, results)
    {
      hide EdgeBag, Mirrored, IsRelated, ShowsNeighbours, Invariant, Registered, Logged, Closed;
      ghost var v := View(EdgeBag(outgoing), filter);
      results := [];
      var q: seq<Entry> := [(start, 0)];
      var visited := {start};
      ghost var log, k := q, 0;
      Begins(v, start, maxDepth, nodes);
      while q != []
        invariant Invariant(v, start, maxDepth, log, k) && k <= |log|
        invariant q == log[k..]
        invariant forall id :: id in visited <==> Logged(log, id)
        invariant results == Registered(nodes, log)
        decreases |Universe(v, start)| - k
      {
        var (current, depth) := q[0];
        q := q[1..];
        StaysWithin(v, start, maxDepth, log, k);
        LogFits(v, start, maxDepth, log, k);
        if depth < maxDepth {
          q, visited, results, log := Expand(v, start, maxDepth, filter, current, depth, log, k, q, visited, results, true);
          q, visited, results, log := Expand(v, start, maxDepth, filter, current, depth, log, k, q, visited, results, false);
          AllNeighboursVisited(v, current, visited, log);
        }
        Advance(v, start, maxDepth, log, k);
        k := k + 1;
      }
      ReportedIsRelated(nodes, v, start, maxDepth, log);
      SeenNeighbours(EdgeBag(outgoing), filter, start, maxDepth, results);
    }

    lemma SeenNeighbours(edges: multiset<Edge>, filter: Option<RelationType>, start: Id, maxDepth: nat, results: seq<Node>)
      requires Valid() && IsRelated(nodes, View(edges, filter), start, maxDepth, results)
      ensures ShowsNeighbours(nodes, edges, filter, start, maxDepth, results)
    {
      hide IsRelated, Joins, Mirrored;
      if filter.None? && maxDepth >= 1 {
        forall e, id | e in edges && Joins(e, start, id) && id != start && id in nodes
          ensures nodes[id] in results
        {
          NeighboursReported(nodes, edges, start, maxDepth, results, e, id);
        }
      }
      if filter.Some? && maxDepth == 1 {
        forall n | n in results
          ensures exists e :: e in edges && e.relation == filter.value && Joins(e, start, n.id)
        {
          FilteredNeighbours(nodes, edges, filter.value, start, results, n);
        }
      }
    }

    /** The edges shown at an id: its outgoing list, or its incoming list. */
    function Listed(id: Id, out: bool): seq<Edge>
      reads this
    {
      EdgesAt(if out then outgoing else incoming, id)
    }

    /** The scan of one edge list of the entry just taken off the queue. */
    method Expand(ghost v: View, ghost start: Id, ghost maxDepth: nat, filter: Option<RelationType>,
                  current: Id, depth: nat, ghost log0: seq<Entry>, ghost k: nat,
                  q0: seq<Entry>, visited0: set<Id>, results0: seq<Node>, out: bool)
      returns (q: seq<Entry>, visited: set<Id>, results: seq<Node>, ghost log: seq<Entry>)
      requires Valid() && v == View(EdgeBag(outgoing), filter)
      requires Expanding(v, start, maxDepth, log0, k, q0, visited0, results0) && log0[k] == (current, depth)
      ensures Expanding(v, start, maxDepth, log, k, q, visited, results) && log[k] == (current, depth)
      ensures visited0 <= visited
      ensures forall e | e in Listed(current, out) && (filter == None || filter == Some(e.relation)) :: End(e, !out) in visited
    {
      hide Invariant, Mirrored, Registered;
      q, visited, results, log := q0, visited0, results0, log0;
      var edges := Listed(current, out);
      for i := 0 to |edges|
        invariant Expanding(v, start, maxDepth, log, k, q, visited, results) && log[k] == (current, depth)
        invariant visited0 <= visited
        invariant forall j | 0 <= j < i && MatchesFilter(filter, edges[j]) :: End(edges[j], !out) in visited
      {
        if filter.Some? && edges[i].relation != filter.value {
          continue;
        }
        var next := End(edges[i], !out);
        if next !in visited {
          Neighbour(v, current, edges[i], out);
          log := ExpandStep(v, start, maxDepth, log, k, q, visited, results, next);
          visited := visited + {next};
          results := results + if next in nodes then [nodes[next]] else [];
          q := q + [(next, depth + 1)];
        }
      }
    }

    ghost predicate Expanding(v: View, start: Id, maxDepth: nat, log: seq<Entry>, k: nat, q: seq<Entry>,
                              visited: set<Id>, results: seq<Node>)
      reads this
    {
      && Invariant(v, start, maxDepth, log, k) && k < |log| && log[k].1 < maxDepth
      && q == log[k + 1..]
      && (forall id :: id in visited <==> Logged(log, id))
      && results == Registered(nodes, log)
    }

    lemma Neighbour(v: View, current: Id, e: Edge, out: bool)
      requires Valid() && v.edges == EdgeBag(outgoing) && v.Passes(e)
      requires e in Listed(current, out)
      ensures v.Linked(current, End(e, !out))
    {
      LinkedLocally(outgoing, incoming, v, current, End(e, !out));
    }

    lemma ExpandStep(v: View, start: Id, maxDepth: nat, log: seq<Entry>, k: nat, q: seq<Entry>,
                     visited: set<Id>, results: seq<Node>, w: Id) returns (longer: seq<Entry>)
      requires Expanding(v, start, maxDepth, log, k, q, visited, results)
      requires v.Linked(log[k].0, w) && w !in visited
      ensures longer == log + [(w, log[k].1 + 1)]
      ensures Expanding(v, start, maxDepth, longer, k, q + [(w, log[k].1 + 1)], visited + {w},
                        results + if w in nodes then [nodes[w]] else [])
    {
      hide Invariant, Registered;
      longer := log + [(w, log[k].1 + 1)];
      Discover(v, start, maxDepth, log, k, w);
      RegisteredStep(nodes, log, (w, log[k].1 + 1));
      LoggedExtends(log, [(w, log[k].1 + 1)]);
      assert longer[|log|].0 == w;
    }

    lemma AllNeighboursVisited(v: View, current: Id, visited: set<Id>, log: seq<Entry>)
      requires Valid() && v.edges == EdgeBag(outgoing)
      requires forall id :: id in visited <==> Logged(log, id)
      requires forall e | e in Listed(current, true) && v.Passes(e) :: End(e, false) in visited
      requires forall e | e in Listed(current, false) && v.Passes(e) :: End(e, true) in visited
      ensures Closed(v, log, current)
    {
      forall w | v.Linked(current, w)
        ensures Logged(log, w)
      {
        LinkedLocally(outgoing, incoming, v, current, w);
      }
    }

    method ExportNodes() returns (ns: seq<Node>)
      requires Valid()
      ensures ListsNodes(nodes, {}, ns)
    {
      hide Mirrored, ListsNodes;
      ns := [];
      var rest := nodes;
      ListsNone(nodes);
      while rest != map[]
        invariant forall id | id in rest :: id in nodes && rest[id] == nodes[id]
        invariant ListsNodes(nodes, rest.Keys, ns)
        decreases |rest|
      {
        var id :| id in rest;
        ListsOneMore(nodes, rest.Keys, ns, id);
        ns := ns + [InSeconds(rest[id])];
        rest := rest - {id};
      }
    }

    method ExportEdges() returns (es: seq<Edge>)
      requires Valid()
      ensures Selects(outgoing, true, es)
    {
      es := [];
      var left := outgoing;
      while left != map[]
        invariant forall k | k in left :: k in outgoing && left[k] == outgoing[k]
        invariant forall k :: Keep(es, From(k)) == if k in left then [] else EdgesAt(outgoing, k)
        decreases |left|
      {
        var k :| k in left;
        ExportStep(outgoing, left, es, k);
        es := es + left[k];
        left := left - {k};
      }
    }

    method Export() returns (r: Records)
      requires Valid()
      ensures IsExport(nodes, outgoing, r)
    {
      var ns := ExportNodes();
      var es := ExportEdges();
      r := Records(ns, es);
    }

    method Import(r: Records)
      modifies this
      ensures Valid()
      ensures IsImport(r, nodes, outgoing, incoming)
    {
      Clear();
      ImportNodes(r.nodes);
      ImportEdges(r.edges);
    }

    method ImportNodes(ns: seq<Node>)
      requires nodes == map[]
      modifies this`nodes
      ensures nodes == NodesOf(ns) && forall id | id in nodes :: nodes[id].id == id
    {
      for i := 0 to |ns|
        invariant nodes == NodesOf(ns[..i])
        invariant forall id | id in nodes :: nodes[id].id == id
      {
        nodes := nodes[ns[i].id := FromSeconds(ns[i])];
        assert ns[..i + 1][..i] == ns[..i];
      }
      assert ns[..|ns|] == ns;
    }

    method ImportEdges(es: seq<Edge>)
      requires outgoing == map[] && incoming == map[]
      modifies this`outgoing, this`incoming
      ensures FiledRecords(es, outgoing, incoming)
    {
      for i := 0 to |es|
        invariant FiledRecords(es[..i], outgoing, incoming)
      {
        var e := es[i];
        ImportStep(es, i, outgoing, incoming);
        outgoing := outgoing[e.fromId := EdgesAt(outgoing, e.fromId) + [e]];
        incoming := incoming[e.toId := EdgesAt(incoming, e.toId) + [e]];
      }
      assert es[..|es|] == es;
    }
  }
}
