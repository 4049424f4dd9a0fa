/** The discovery log of the breadth-first search: every id ever put on the queue, with its depth.
    The queue itself is the part of the log from position k on. */
module BreadthFirst {
  import opened Graph
  import opened Sequences

  type Entry = (Id, nat)

  predicate Logged(log: seq<Entry>, id: Id) {
    exists i | 0 <= i < |log| :: log[i].0 == id
  }

  ghost predicate Exact(v: View, start: Id, id: Id, d: nat) {
    && v.Within(start, id, d)
    && (d > 0 ==> !v.Within(start, id, d - 1))
  }

  /** Every id linked to this one has been discovered. */
  ghost predicate Closed(v: View, log: seq<Entry>, id: Id) {
    forall w | v.Linked(id, w) :: Logged(log, w)
  }

  /** Log entries are distinct, at their exact distance, in nondecreasing distance, at most one level
      apart from position k on, and all entries before k have had their neighbours discovered. */
  ghost predicate Invariant(v: View, start: Id, maxDepth: nat, log: seq<Entry>, k: nat) {
    && k <= |log| && 0 < |log| && log[0] == (start, 0)
    && (forall i, j | 0 <= i < j < |log| :: log[i].0 != log[j].0)
    && (forall i, j | 0 <= i < j < |log| :: log[i].1 <= log[j].1)
    && (forall i | 0 <= i < |log| :: log[i].1 <= maxDepth && Exact(v, start, log[i].0, log[i].1))
    && (k < |log| ==> log[|log| - 1].1 <= log[k].1 + 1)
    && (forall i | 0 <= i < k && log[i].1 < maxDepth :: Closed(v, log, log[i].0))
  }

  /** The levels below the depth at position k are completely discovered; once k is at the end,
      all levels up to the bound are. */
  lemma {:induction false} LevelsComplete(v: View, start: Id, maxDepth: nat, log: seq<Entry>, k: nat, n: nat, id: Id)
    requires Invariant(v, start, maxDepth, log, k)
    requires n <= if k < |log| then log[k].1 else maxDepth
    requires v.Within(start, id, n)
    ensures Logged(log, id)
    decreases n
  {
    if n == 0 {
      assert log[0].0 == id;
    } else if v.Within(start, id, n - 1) {
      LevelsComplete(v, start, maxDepth, log, k, n - 1, id);
    } else {
      var u :| v.Within(start, u, n - 1) && v.Linked(u, id);
      LevelsComplete(v, start, maxDepth, log, k, n - 1, u);
      var i :| 0 <= i < |log| && log[i].0 == u;
      assert Exact(v, start, u, log[i].1);
      if log[i].1 >= n {
        v.WithinMonotone(start, u, n - 1, log[i].1 - 1);
      }
      assert i < k;
      assert Closed(v, log, log[i].0);
    }
  }

  /** A new neighbour of the entry at position k is one level further away than that entry. */
  lemma NewNeighbourExact(v: View, start: Id, maxDepth: nat, log: seq<Entry>, k: nat, w: Id)
    requires Invariant(v, start, maxDepth, log, k)
    requires k < |log| && log[k].1 < maxDepth && v.Linked(log[k].0, w) && !Logged(log, w)
    ensures Exact(v, start, w, log[k].1 + 1)
  {
    assert Exact(v, start, log[k].0, log[k].1);
    if v.Within(start, w, log[k].1) {
      LevelsComplete(v, start, maxDepth, log, k, log[k].1, w);
    }
  }

  /** Discovering a new neighbour of the entry at position k. */
  lemma Discover(v: View, start: Id, maxDepth: nat, log: seq<Entry>, k: nat, w: Id)
    requires Invariant(v, start, maxDepth, log, k)
    requires k < |log| && log[k].1 < maxDepth && v.Linked(log[k].0, w) && !Logged(log, w)
    ensures Invariant(v, start, maxDepth, log + [(w, log[k].1 + 1)], k)
  {
    NewNeighbourExact(v, start, maxDepth, log, k, w);
    ClosedExtends(v, maxDepth, log, k, (w, log[k].1 + 1));
  }

  lemma ClosedExtends(v: View, maxDepth: nat, log: seq<Entry>, k: nat, e: Entry)
    requires k <= |log| && forall i | 0 <= i < k && log[i].1 < maxDepth :: Closed(v, log, log[i].0)
    ensures forall i | 0 <= i < k && log[i].1 < maxDepth :: Closed(v, log + [e], log[i].0)
  {
    LoggedExtends(log, [e]);
    forall i | 0 <= i < k && log[i].1 < maxDepth
      ensures Closed(v, log + [e], log[i].0)
    {
      assert Closed(v, log, log[i].0);
    }
  }

  lemma LoggedExtends(log: seq<Entry>, more: seq<Entry>)
    ensures forall id | Logged(log, id) :: Logged(log + more, id)
  {
    forall id | Logged(log, id)
      ensures Logged(log + more, id)
    {
      var i :| 0 <= i < |log| && log[i].0 == id;
      assert (log + more)[i].0 == id;
    }
  }

  /** The entry at position k has been expanded, or lies at the depth bound: move past it. */
  lemma Advance(v: View, start: Id, maxDepth: nat, log: seq<Entry>, k: nat)
    requires Invariant(v, start, maxDepth, log, k) && k < |log|
    requires log[k].1 < maxDepth ==> Closed(v, log, log[k].0)
    ensures Invariant(v, start, maxDepth, log, k + 1)
  {
  }

  /** With the queue empty, the log is exactly the ids within the bound, at their exact distance. */
  lemma Finished(v: View, start: Id, maxDepth: nat, log: seq<Entry>, id: Id)
    requires Invariant(v, start, maxDepth, log, |log|)
    ensures Logged(log, id) <==> v.Within(start, id, maxDepth)
  {
    if v.Within(start, id, maxDepth) {
      LevelsComplete(v, start, maxDepth, log, |log|, maxDepth, id);
    }
    if i :| 0 <= i < |log| && log[i].0 == id {
      assert Exact(v, start, id, log[i].1);
      v.WithinMonotone(start, id, log[i].1, maxDepth);
    }
  }

  // ---- the ids a log can hold: at most the endpoints of the edges, and the start

  function Universe(v: View, start: Id): set<Id> {
    {start} + (set e | e in v.edges :: e.fromId) + (set e | e in v.edges :: e.toId)
  }

  lemma {:induction false} LogFits(v: View, start: Id, maxDepth: nat, log: seq<Entry>, k: nat)
    requires Invariant(v, start, maxDepth, log, k)
    ensures |log| <= |Universe(v, start)|
  {
    var ids := seq(|log|, i requires 0 <= i < |log| => log[i].0);
    forall i | 0 <= i < |ids|
      ensures ids[i] in Universe(v, start)
    {
      assert Exact(v, start, log[i].0, log[i].1);
      WithinUniverse(v, start, log[i].0, log[i].1);
    }
    DistinctWithin(ids, Universe(v, start));
  }

  lemma {:induction false} WithinUniverse(v: View, start: Id, id: Id, d: nat)
    requires v.Within(start, id, d)
    ensures id in Universe(v, start)
  {
    if d == 0 {
    } else {
      if v.Within(start, id, d - 1) {
        WithinUniverse(v, start, id, d - 1);
      } else {
        var u :| v.Within(start, u, d - 1) && v.Linked(u, id);
      }
    }
  }

  // ---- what is reported: the registered nodes of the log, without its first entry

  function Registered(nodes: map<Id, Node>, log: seq<Entry>): seq<Node> {
    if |log| <= 1 then []
    else if log[|log| - 1].0 in nodes then Registered(nodes, log[..|log| - 1]) + [nodes[log[|log| - 1].0]]
    else Registered(nodes, log[..|log| - 1])
  }

  /** The log at the start of the search, and a bound of its position at any time. */
  lemma Begins(v: View, start: Id, maxDepth: nat, nodes: map<Id, Node>)
    ensures Invariant(v, start, maxDepth, [(start, 0)], 0) && Registered(nodes, [(start, 0)]) == []
    ensures forall id :: Logged([(start, 0)], id) <==> id == start
  {
    assert v.Within(start, start, 0);
    assert [(start, 0)][0].0 == start;
  }

  lemma StaysWithin(v: View, start: Id, maxDepth: nat, log: seq<Entry>, k: nat)
    requires Invariant(v, start, maxDepth, log, k)
    ensures k <= |log| && (k < |log| ==> log[k].1 <= maxDepth)
  {
  }

  lemma RegisteredStep(nodes: map<Id, Node>, log: seq<Entry>, e: Entry)
    requires log != []
    ensures Registered(nodes, log + [e]) == Registered(nodes, log) + if e.0 in nodes then [nodes[e.0]] else []
  {
    assert (log + [e])[..|log|] == log;
  }

  /** Reported nodes come from log positions after the first, in log order; and none is missed. */
  ghost predicate Picks(nodes: map<Id, Node>, log: seq<Entry>, at: seq<nat>, reported: seq<Node>) {
    && |at| == |reported|
    && (forall i | 0 <= i < |at| :: 0 < at[i] < |log| && log[at[i]].0 in nodes && reported[i] == nodes[log[at[i]].0])
    && (forall i, j | 0 <= i < j < |at| :: at[i] < at[j])
    && (forall m | 0 < m < |log| && log[m].0 in nodes :: exists i :: 0 <= i < |at| && at[i] == m)
  }

  lemma PicksNext(nodes: map<Id, Node>, log: seq<Entry>, at: seq<nat>, reported: seq<Node>, e: Entry)
    requires log != [] && Picks(nodes, log, at, reported)
    ensures e.0 !in nodes ==> Picks(nodes, log + [e], at, reported)
    ensures e.0 in nodes ==> Picks(nodes, log + [e], at + [|log|], reported + [nodes[e.0]])
  {
    if e.0 in nodes {
      var at' := at + [|log|];
      assert at'[|at|] == |log|;
      forall m | 0 < m < |log| + 1 && (log + [e])[m].0 in nodes
        ensures exists i :: 0 <= i < |at'| && at'[i] == m
      {
        if m < |log| {
          var i :| 0 <= i < |at| && at[i] == m;
          assert at'[i] == m;
        }
      }
    }
  }

  lemma {:induction false} RegisteredFromLog(nodes: map<Id, Node>, log: seq<Entry>) returns (at: seq<nat>)
    ensures Picks(nodes, log, at, Registered(nodes, log))
    decreases |log|
  {
    hide Registered, Picks;
    if |log| <= 1 {
      at := [];
      PicksNothing(nodes, log);
    } else {
      var most, last := log[..|log| - 1], log[|log| - 1];
      var before := RegisteredFromLog(nodes, most);
      PicksNext(nodes, most, before, Registered(nodes, most), last);
      RegisteredStep(nodes, most, last);
      assert log == most + [last];
      assert Registered(nodes, most) + [] == Registered(nodes, most);
      at := if last.0 in nodes then before + [|log| - 1] else before;
    }
  }

  lemma PicksNothing(nodes: map<Id, Node>, log: seq<Entry>)
    requires |log| <= 1
    ensures Picks(nodes, log, [], Registered(nodes, log))
  {
  }
}
