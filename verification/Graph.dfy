/** The edge lists of the knowledge graph as values: adjacency maps, the bag of all edges,
    the mirror relation between the two maps, walks, and depth-bounded reachability. */
module Graph {
  import opened Sequences
  import opened Wrappers

  type Id = string

  datatype EntityType = Symbol | BugFix | ArchitectureDecision | UserPreference | ProjectTask

  datatype RelationType = Calls | Implements | Fixes | DependsOn | Prefers | Violates | RelatedTo

  datatype Node = Node(id: Id, name: string, kind: EntityType, description: string,
                       properties: map<string, string>, createdAt: int)

  datatype Edge = Edge(fromId: Id, toId: Id, relation: RelationType, weight: real, description: string)

  type Adjacency = map<Id, seq<Edge>>

  /** The endpoint an edge is filed under: its source or its target. */
  function End(e: Edge, from: bool): Id {
    if from then e.fromId else e.toId
  }

  function EdgesAt(m: Adjacency, id: Id): seq<Edge> {
    if id in m then m[id] else []
  }

  // ---- selecting edges by an endpoint

  datatype EndTest = From(id: Id) | To(id: Id) | NotFrom(id: Id) | NotTo(id: Id) {
    predicate Holds(e: Edge) {
      match this
      case From(id) => e.fromId == id
      case To(id) => e.toId == id
      case NotFrom(id) => e.fromId != id
      case NotTo(id) => e.toId != id
    }
  }

  function Keep(es: seq<Edge>, t: EndTest): seq<Edge> {
    if es == [] then []
    else if t.Holds(es[0]) then [es[0]] + Keep(es[1..], t)
    else Keep(es[1..], t)
  }

  lemma {:induction false} KeepAppend(a: seq<Edge>, b: seq<Edge>, t: EndTest)
    ensures Keep(a + b, t) == Keep(a, t) + Keep(b, t)
  {
    if a == [] {
      assert a + b == b;
    } else {
      assert (a + b)[1..] == a[1..] + b;
      KeepAppend(a[1..], b, t);
    }
  }

  lemma KeepLast(es: seq<Edge>, e: Edge, t: EndTest)
    ensures Keep(es + [e], t) == if t.Holds(e) then Keep(es, t) + [e] else Keep(es, t)
  {
    KeepAppend(es, [e], t);
    assert Keep([e], t) == if t.Holds(e) then [e] else [];
  }

  /** What is kept is exactly what passes, in the same order. */
  lemma {:induction false} KeptInOrder(es: seq<Edge>, t: EndTest) returns (at: seq<int>)
    ensures StandsAt(Keep(es, t), es, at) && ArePassing(at, es, (e: Edge) => t.Holds(e))
  {
    if es == [] {
      at := [];
    } else {
      hide StandsAt, ArePassing, EndTest.Holds, Keep;
      var most, last := es[..|es| - 1], es[|es| - 1];
      at := KeptInOrder(most, t);
      assert most + [last] == es;
      KeepLast(most, last, t);
      StandsNext(Keep(most, t), most, at, last, (e: Edge) => t.Holds(e));
      at := if t.Holds(last) then at + [|most|] else at;
    }
  }

  lemma {:induction false} KeepCount(es: seq<Edge>, t: EndTest, e: Edge)
    ensures multiset(Keep(es, t))[e] == if t.Holds(e) then multiset(es)[e] else 0
  {
    if es == [] {
    } else {
      KeepCount(es[1..], t, e);
      assert es == [es[0]] + es[1..];
    }
  }

  lemma {:induction false} KeepUniform(es: seq<Edge>, t: EndTest)
    ensures (forall e | e in es :: t.Holds(e)) ==> Keep(es, t) == es
    ensures (forall e | e in es :: !t.Holds(e)) ==> Keep(es, t) == []
  {
    if es == [] {
    } else {
      KeepUniform(es[1..], t);
      assert es == [es[0]] + es[1..];
      assert forall e | e in es[1..] :: e in es;
    }
  }

  // ---- the bag of all edges held in an adjacency map

  ghost function EdgeBag(m: Adjacency): multiset<Edge>
    decreases |m|
  {
    if m == map[] then multiset{}
    else
      var k :| k in m;
      multiset(m[k]) + EdgeBag(m - {k})
  }

  lemma {:induction false} EdgeBagPeel(m: Adjacency, k: Id)
    requires k in m
    ensures EdgeBag(m) == multiset(m[k]) + EdgeBag(m - {k})
    decreases |m|
  {
    var c :| c in m && EdgeBag(m) == multiset(m[c]) + EdgeBag(m - {c});
    if c == k {
    } else {
      EdgeBagPeel(m - {c}, k);
      EdgeBagPeel(m - {k}, c);
      assert m - {c} - {k} == m - {k} - {c};
    }
  }

  ghost predicate Filed(m: Adjacency, from: bool) {
    forall k, e | k in m && e in m[k] :: End(e, from) == k
  }

  lemma {:induction false} EdgeBagCount(m: Adjacency, from: bool, e: Edge)
    requires Filed(m, from)
    ensures EdgeBag(m)[e] == multiset(EdgesAt(m, End(e, from)))[e]
    decreases |m|
  {
    if m == map[] {
    } else {
      var k :| k in m;
      EdgeBagPeel(m, k);
      EdgeBagCount(m - {k}, from, e);
      if k != End(e, from) {
        assert e !in m[k];
      }
    }
  }

  /** The incoming map is the mirror image of the outgoing map: edges are filed under their own
      endpoints and every edge occurs equally often in both. */
  ghost predicate Mirrored(out: Adjacency, inc: Adjacency) {
    && Filed(out, true)
    && Filed(inc, false)
    && EdgeBag(out) == EdgeBag(inc)
  }

  /** The map after pushing an edge onto the list of its own endpoint. */
  function File(m: Adjacency, from: bool, edge: Edge): Adjacency {
    m[End(edge, from) := EdgesAt(m, End(edge, from)) + [edge]]
  }

  lemma FileKeepsFiled(m: Adjacency, from: bool, edge: Edge)
    requires Filed(m, from)
    ensures Filed(File(m, from, edge), from)
  {
    var longer := File(m, from, edge);
    forall k, e | k in longer && e in longer[k]
      ensures End(e, from) == k
    {
      if k == End(edge, from) && e != edge {
        assert e in EdgesAt(m, k);
      }
    }
  }

  lemma FileCount(m: Adjacency, from: bool, edge: Edge, e: Edge)
    requires Filed(m, from)
    ensures EdgeBag(File(m, from, edge))[e] == EdgeBag(m)[e] + if e == edge then 1 else 0
  {
    var longer := File(m, from, edge);
    FileKeepsFiled(m, from, edge);
    EdgeBagCount(m, from, e);
    EdgeBagCount(longer, from, e);
    if End(e, from) == End(edge, from) {
      assert EdgesAt(longer, End(e, from)) == EdgesAt(m, End(e, from)) + [edge];
    } else {
      assert EdgesAt(longer, End(e, from)) == EdgesAt(m, End(e, from));
    }
  }

  lemma FileEdge(m: Adjacency, from: bool, edge: Edge)
    requires Filed(m, from)
    ensures Filed(File(m, from, edge), from)
    ensures EdgeBag(File(m, from, edge)) == EdgeBag(m) + multiset{edge}
  {
    FileKeepsFiled(m, from, edge);
    var after := EdgeBag(File(m, from, edge));
    forall e: Edge
      ensures after[e] == (EdgeBag(m) + multiset{edge})[e]
    {
      FileCount(m, from, edge, e);
    }
  }

  /** The map without the list of an id, and without the edges whose other end is that id. */
  function WithoutNode(m: Adjacency, from: bool, id: Id): Adjacency {
    map k | k in m && k != id :: Keep(m[k], if from then NotTo(id) else NotFrom(id))
  }

  lemma WithoutKeepsFiled(m: Adjacency, from: bool, id: Id)
    requires Filed(m, from)
    ensures Filed(WithoutNode(m, from, id), from)
  {
    var less := WithoutNode(m, from, id);
    forall k, e | k in less && e in less[k]
      ensures End(e, from) == k
    {
      KeepCount(m[k], if from then NotTo(id) else NotFrom(id), e);
      assert e in m[k];
    }
  }

  /** Exactly the incident edges leave the bag. */
  lemma WithoutCount(m: Adjacency, from: bool, id: Id, e: Edge)
    requires Filed(m, from)
    ensures EdgeBag(WithoutNode(m, from, id))[e] == if e.fromId == id || e.toId == id then 0 else EdgeBag(m)[e]
  {
    WithoutKeepsFiled(m, from, id);
    EdgeBagCount(m, from, e);
    EdgeBagCount(WithoutNode(m, from, id), from, e);
    KeepCount(EdgesAt(m, End(e, from)), if from then NotTo(id) else NotFrom(id), e);
  }

  lemma WithoutMirrored(out: Adjacency, inc: Adjacency, id: Id)
    requires Mirrored(out, inc)
    ensures Mirrored(WithoutNode(out, true, id), WithoutNode(inc, false, id))
    ensures forall e: Edge ::
              EdgeBag(WithoutNode(out, true, id))[e] == if e.fromId == id || e.toId == id then 0 else EdgeBag(out)[e]
  {
    WithoutKeepsFiled(out, true, id);
    WithoutKeepsFiled(inc, false, id);
    var out', inc' := EdgeBag(WithoutNode(out, true, id)), EdgeBag(WithoutNode(inc, false, id));
    forall e: Edge
      ensures out'[e] == inc'[e] == if e.fromId == id || e.toId == id then 0 else EdgeBag(out)[e]
    {
      WithoutCount(out, true, id, e);
      WithoutCount(inc, false, id, e);
    }
  }

  lemma MirroredCounts(out: Adjacency, inc: Adjacency, e: Edge)
    requires Mirrored(out, inc)
    ensures multiset(EdgesAt(out, e.fromId))[e] == EdgeBag(out)[e] == multiset(EdgesAt(inc, e.toId))[e]
  {
    EdgeBagCount(out, true, e);
    EdgeBagCount(inc, false, e);
  }

  // ---- undirected links, walks, and bounded reachability

  predicate MatchesFilter(filter: Option<RelationType>, e: Edge) {
    filter.Some? ==> e.relation == filter.value
  }

  /** What a search sees: all edges of the graph, and the optional relation filter. */
  datatype View = View(edges: multiset<Edge>, filter: Option<RelationType>) {
    predicate Passes(e: Edge) {
      MatchesFilter(filter, e)
    }

    ghost predicate Linked(a: Id, b: Id) {
      exists e | e in edges :: Passes(e) && ((e.fromId == a && e.toId == b) || (e.toId == a && e.fromId == b))
    }

    ghost predicate IsWalk(p: seq<Id>) {
      && |p| > 0
      && forall i | 0 <= i < |p| - 1 :: Linked(p[i], p[i + 1])
    }

    /** There is a walk of at most n links from a to b. */
    ghost predicate Reaches(a: Id, b: Id, n: nat) {
      exists p :: IsWalk(p) && |p| <= n + 1 && p[0] == a && p[|p| - 1] == b
    }

    ghost predicate Within(a: Id, b: Id, n: nat)
      decreases n
    {
      if n == 0 then a == b else Within(a, b, n - 1) || exists u :: Within(a, u, n - 1) && Linked(u, b)
    }

    lemma {:induction false} WithinMonotone(a: Id, b: Id, m: nat, n: nat)
      requires m <= n && Within(a, b, m)
      ensures Within(a, b, n)
      decreases n - m
    {
      if m == n {
      } else {
        WithinMonotone(a, b, m + 1, n);
      }
    }

    lemma {:induction false} WalkWithin(p: seq<Id>)
      requires IsWalk(p)
      ensures Within(p[0], p[|p| - 1], |p| - 1)
      decreases |p|
    {
      if |p| == 1 {
      } else {
        var q := p[..|p| - 1];
        WalkWithin(q);
        assert Linked(p[|p| - 2], p[|p| - 2 + 1]);
      }
    }

    lemma {:induction false} WithinWalk(a: Id, b: Id, n: nat) returns (p: seq<Id>)
      requires Within(a, b, n)
      ensures IsWalk(p) && |p| <= n + 1 && p[0] == a && p[|p| - 1] == b
      decreases n
    {
      if n == 0 {
        p := [a];
      } else if Within(a, b, n - 1) {
        p := WithinWalk(a, b, n - 1);
      } else {
        var u :| Within(a, u, n - 1) && Linked(u, b);
        var q := WithinWalk(a, u, n - 1);
        p := q + [b];
      }
    }

    /** The inductive form used by the search agrees with the walk-based definition. */
    lemma ReachesIsWithin(a: Id, b: Id, n: nat)
      ensures Reaches(a, b, n) <==> Within(a, b, n)
    {
      if Reaches(a, b, n) {
        var p :| IsWalk(p) && |p| <= n + 1 && p[0] == a && p[|p| - 1] == b;
        WalkWithin(p);
        WithinMonotone(a, b, |p| - 1, n);
      }
      if Within(a, b, n) {
        var p := WithinWalk(a, b, n);
      }
    }
  }

  /** The edge joins the two ids, in either direction. */
  predicate Joins(e: Edge, a: Id, b: Id) {
    (e.fromId == a && e.toId == b) || (e.fromId == b && e.toId == a)
  }

  /** Without a filter two ids are linked if and only if some edge joins them; with one, if and only if some
      edge of that relation does. */
  lemma LinkedWhenJoined(edges: multiset<Edge>, r: RelationType, a: Id, b: Id)
    ensures View(edges, None).Linked(a, b) <==>
            exists e :: e in edges && ((e.fromId == a && e.toId == b) || (e.fromId == b && e.toId == a))
    ensures View(edges, Some(r)).Linked(a, b) <==>
            exists e :: e in edges && e.relation == r && ((e.fromId == a && e.toId == b) || (e.fromId == b && e.toId == a))
  {
  }

  /** Reached within one link: the id itself and what it is linked to. */
  lemma ReachesInOne(v: View, a: Id, b: Id)
    ensures v.Reaches(a, b, 1) <==> a == b || v.Linked(a, b)
  {
    v.ReachesIsWithin(a, b, 1);
    assert v.Within(a, b, 1) <==> v.Within(a, b, 0) || exists u :: v.Within(a, u, 0) && v.Linked(u, b);
    assert v.Within(a, a, 0);
  }

  lemma ReachesFurther(v: View, a: Id, b: Id, m: nat, n: nat)
    requires m <= n && v.Reaches(a, b, m)
    ensures v.Reaches(a, b, n)
  {
    v.ReachesIsWithin(a, b, m);
    v.WithinMonotone(a, b, m, n);
    v.ReachesIsWithin(a, b, n);
  }

  /** An edge shows in the two lists it is filed in, and in no other list. */
  lemma ShownInLists(out: Adjacency, inc: Adjacency, e: Edge, a: Id)
    requires Mirrored(out, inc)
    ensures e in EdgesAt(out, a) <==> e in EdgeBag(out) && e.fromId == a
    ensures e in EdgesAt(inc, a) <==> e in EdgeBag(out) && e.toId == a
  {
    MirroredCounts(out, inc, e);
    if e in EdgesAt(out, a) {
      assert End(e, true) == a;
    }
    if e in EdgesAt(inc, a) {
      assert End(e, false) == a;
    }
  }

  /** Under the mirror relation, the links of a node are exactly what its two edge lists show. */
  lemma LinkedLocally(out: Adjacency, inc: Adjacency, v: View, a: Id, b: Id)
    requires Mirrored(out, inc) && v.edges == EdgeBag(out)
    ensures v.Linked(a, b) <==>
            exists e :: v.Passes(e) && ((e in EdgesAt(out, a) && e.toId == b) || (e in EdgesAt(inc, a) && e.fromId == b))
  {
    forall e: Edge
      ensures e in EdgesAt(out, a) <==> e in v.edges && e.fromId == a
      ensures e in EdgesAt(inc, a) <==> e in v.edges && e.toId == a
    {
      ShownInLists(out, inc, e, a);
    }
    var outs, ins := EdgesAt(out, a), EdgesAt(inc, a);
    if v.Linked(a, b) {
      var e :| e in v.edges && v.Passes(e) && ((e.fromId == a && e.toId == b) || (e.toId == a && e.fromId == b));
      assert (e in outs && e.toId == b) || (e in ins && e.fromId == b);
    }
  }
}
