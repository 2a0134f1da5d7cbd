/** The two searches of `ShortestActorGraph`: breadth-first search over a FIFO
    queue of partial paths, with a visited set seeded with the source and marked
    at discovery time. `GetPath` follows every edge; `GetRestrictedPath` enqueues
    a newly discovered node only if it passes `match_requirements`.

    Both loops keep the same invariants, stated once for any filter: `OuterInv`
    at the head of the `while queue` loop and `InnerInv` in the loop over the
    neighbours of the dequeued node. Each step of the loops is a lemma below. */
module Search {
  import opened Graph
  import opened Eligibility
  import opened Walks

  /** What every partial path in the queue satisfies: an allowed walk from the
      source without repeats, every node after the source passes the filter, and
      no allowed walk reaches its last node with fewer nodes. */
  ghost predicate Queued(store: Store, f: Filter, a: Id, p: seq<Id>)
  {
    AllowedWalk(store, f, a, p) && NoRepeats(p)
    && (forall i :: 0 < i < |p| ==> Allowed(store, f, p[i]))
    && NoShorterWalk(store, f, a, Last(p), |p|)
  }

  /** Breadth-first order: along the queue the path lengths never decrease and
      span at most two consecutive values. */
  ghost predicate Levelled(queue: seq<seq<Id>>)
  {
    forall i, j :: 0 <= i <= j < |queue| ==> |queue[i]| <= |queue[j]| <= |queue[i]| + 1
  }

  /** Every expanded node has all its neighbours visited. */
  ghost predicate ClosedUnder(store: Store, visited: set<Id>, done: set<Id>)
  {
    done <= visited && forall u :: u in done ==> AdjacentNodes(store, u) <= visited
  }

  /** Every visited node that still has to be expanded has no allowed walk shorter than `level`. */
  ghost predicate PendingBound(store: Store, f: Filter, a: Id, visited: set<Id>, done: set<Id>, level: nat)
  {
    forall x :: x in visited && Expandable(store, f, a, x) && x !in done ==> NoShorterWalk(store, f, a, x, level)
  }

  /** The queue and the record of what was enqueued: `enqueued[head..]` lists the
      last nodes of the queued paths in queue order, every enqueued node is
      visited, and no node was enqueued twice. */
  ghost predicate QueueState(store: Store, f: Filter, a: Id, queue: seq<seq<Id>>, visited: set<Id>,
                             enqueued: seq<Id>, head: nat)
  {
    && (forall i :: 0 <= i < |queue| ==> Queued(store, f, a, queue[i]))
    && (forall i, y :: 0 <= i < |queue| && y in queue[i] ==> y in visited)
    && Levelled(queue)
    && |enqueued| == head + |queue| && |enqueued| > 0 && enqueued[0] == a
    && (forall i :: 0 <= i < |queue| ==> |queue[i]| > 0 && Last(queue[i]) == enqueued[head + i])
    && NoRepeats(enqueued) && (forall y :: y in enqueued ==> y in visited)
    && (forall i :: 0 < i < |enqueued| ==> Allowed(store, f, enqueued[i]))
  }

  /** The invariant at the head of the `while queue` loop. */
  ghost predicate OuterInv(store: Store, f: Filter, a: Id, b: Id, universe: set<Id>,
                           queue: seq<seq<Id>>, visited: set<Id>, done: set<Id>, enqueued: seq<Id>, head: nat)
  {
    && a in visited && b !in visited && visited <= universe && Targets(store) <= universe
    && ClosedUnder(store, visited, done)
    && QueueState(store, f, a, queue, visited, enqueued, head)
    && (forall x :: x in visited && Expandable(store, f, a, x) && x !in done ==> x in enqueued[head..])
  }

  /** The invariant of the loop over the neighbours of `Last(curr)`, the node
      being expanded; `measure` is the termination measure before `curr` was dequeued. */
  ghost predicate InnerInv(store: Store, f: Filter, a: Id, b: Id, universe: set<Id>,
                           queue: seq<seq<Id>>, visited: set<Id>, done: set<Id>, enqueued: seq<Id>, head: nat,
                           curr: seq<Id>, neighbours: set<Id>, measure: nat)
  {
    && Queued(store, f, a, curr)
    && neighbours <= AdjacentNodes(store, Last(curr))
    && AdjacentNodes(store, Last(curr)) - neighbours <= visited
    && a in visited && b !in visited && visited <= universe && Targets(store) <= universe
    && ClosedUnder(store, visited, done)
    && PendingBound(store, f, a, visited, done, |curr|)
    && (forall y :: y in curr ==> y in visited)
    && QueueState(store, f, a, queue, visited, enqueued, head)
    && (forall i :: 0 <= i < |queue| ==> |curr| <= |queue[i]| <= |curr| + 1)
    && (forall x :: x in visited && Expandable(store, f, a, x) && x !in done ==>
          x in enqueued[head..] || x == Last(curr))
    && |universe - visited| + |queue| < measure
  }

  /** What the searches promise about the nodes they enqueued: the source
      first, each node at most once, never the destination, and every node
      after the source passes the filter. */
  ghost predicate EnqueueLog(store: Store, f: Filter, a: Id, b: Id, enqueued: seq<Id>)
  {
    |enqueued| > 0 && enqueued[0] == a && NoRepeats(enqueued) && b !in enqueued
    && forall i :: 0 < i < |enqueued| ==> Allowed(store, f, enqueued[i])
  }

  /** Every node a search could expand (the source, or a node that passes the
      filter) and that some allowed walk reaches from the source was enqueued. */
  ghost predicate ExploredAll(store: Store, f: Filter, a: Id, enqueued: seq<Id>)
  {
    forall x :: Expandable(store, f, a, x) && Reachable(store, f, a, x) ==> x in enqueued
  }

  /** The state right after the source is enqueued and marked visited. */
  lemma StartSearch(store: Store, f: Filter, a: Id, b: Id)
    requires a != b
    ensures OuterInv(store, f, a, b, Targets(store) + {a}, [[a]], {a}, {}, [a], 0)
  {
    assert NoShorterWalk(store, f, a, a, 1);
    assert [a][0..] == [a];
  }

  /** No node still to be expanded has an allowed walk shorter than the front
      path: each is the last node of a queued path, and the queue is in
      breadth-first order. */
  lemma FrontBound(store: Store, f: Filter, a: Id, queue: seq<seq<Id>>, visited: set<Id>, done: set<Id>,
                   enqueued: seq<Id>, head: nat)
    requires queue != [] && QueueState(store, f, a, queue, visited, enqueued, head)
    requires forall x :: x in visited && Expandable(store, f, a, x) && x !in done ==> x in enqueued[head..]
    ensures PendingBound(store, f, a, visited, done, |queue[0]|)
  {
    forall x | x in visited && Expandable(store, f, a, x) && x !in done
      ensures NoShorterWalk(store, f, a, x, |queue[0]|)
    {
      var k :| 0 <= k < |enqueued| - head && enqueued[head..][k] == x;
      assert Last(queue[k]) == x;
    }
  }

  /** Removing the front path keeps the queue state, one position further on. */
  lemma PopFront(store: Store, f: Filter, a: Id, queue: seq<seq<Id>>, visited: set<Id>,
                 enqueued: seq<Id>, head: nat)
    requires queue != [] && QueueState(store, f, a, queue, visited, enqueued, head)
    ensures QueueState(store, f, a, queue[1..], visited, enqueued, head + 1)
    ensures |queue[0]| > 0 && enqueued[head..] == [Last(queue[0])] + enqueued[head + 1..]
    ensures forall i :: 0 <= i < |queue| - 1 ==> |queue[0]| <= |queue[1..][i]| <= |queue[0]| + 1
  {
    forall i | 0 <= i < |queue| - 1
      ensures Last(queue[1..][i]) == enqueued[head + 1 + i]
    {
      assert queue[1..][i] == queue[i + 1];
    }
  }

  /** Dequeuing the front path starts the loop over its last node's neighbours. */
  lemma StartNode(store: Store, f: Filter, a: Id, b: Id, universe: set<Id>,
                  queue: seq<seq<Id>>, visited: set<Id>, done: set<Id>, enqueued: seq<Id>, head: nat)
    requires queue != []
    requires OuterInv(store, f, a, b, universe, queue, visited, done, enqueued, head)
    ensures |queue[0]| > 0 && Last(queue[0]) in enqueued
    ensures InnerInv(store, f, a, b, universe, queue[1..], visited, done, enqueued, head + 1,
                     queue[0], AdjacentNodes(store, Last(queue[0])), |universe - visited| + |queue|)
  {
    FrontBound(store, f, a, queue, visited, done, enqueued, head);
    PopFront(store, f, a, queue, visited, enqueued, head);
    assert Last(queue[0]) == enqueued[head];
  }

  /** Extending the path being expanded by an unvisited neighbour (or by the
      destination, which is never visited) gives a walk without repeats that no
      allowed walk beats: every shorter walk would end at a visited node. */
  lemma ExtendShortest(store: Store, f: Filter, a: Id, visited: set<Id>, done: set<Id>,
                       curr: seq<Id>, x: Id)
    requires a in visited && ClosedUnder(store, visited, done)
    requires Queued(store, f, a, curr) && PendingBound(store, f, a, visited, done, |curr|)
    requires forall y :: y in curr ==> y in visited
    requires x in AdjacentNodes(store, Last(curr)) && x !in visited
    ensures AllowedWalk(store, f, a, curr + [x]) && NoRepeats(curr + [x])
    ensures NoShorterWalk(store, f, a, x, |curr| + 1)
  {
    ExtendWalk(store, f, a, curr, x);
    forall w | AllowedWalk(store, f, a, w) && Last(w) == x
      ensures |curr| + 1 <= |w|
    {
      if |w| <= |curr| {
        Closure(store, f, a, visited, done, |curr|, w);
      }
    }
  }

  /** A queued path followed by a new neighbour of its last node is an allowed walk without repeats. */
  lemma ExtendWalk(store: Store, f: Filter, a: Id, curr: seq<Id>, x: Id)
    requires Queued(store, f, a, curr)
    requires x in AdjacentNodes(store, Last(curr)) && x !in curr
    ensures AllowedWalk(store, f, a, curr + [x]) && NoRepeats(curr + [x])
  {
    var p := curr + [x];
    assert Last(curr) == p[|p| - 2];
    assert forall i :: 0 <= i < |p| - 1 ==> p[i] == curr[i];
  }

  /** The destination is adjacent to the node being expanded: the dequeued path
      extended by it is a shortest allowed path. */
  lemma FoundDestination(store: Store, f: Filter, a: Id, b: Id, universe: set<Id>,
                         queue: seq<seq<Id>>, visited: set<Id>, done: set<Id>, enqueued: seq<Id>, head: nat,
                         curr: seq<Id>, neighbours: set<Id>, measure: nat)
    requires InnerInv(store, f, a, b, universe, queue, visited, done, enqueued, head, curr, neighbours, measure)
    requires b in neighbours
    ensures (curr + [b])[0] == a && ShortestPath(store, f, a, b, curr + [b]) && Reachable(store, f, a, b)
    ensures forall i :: 0 < i < |curr + [b]| - 1 ==> Allowed(store, f, (curr + [b])[i])
    ensures EnqueueLog(store, f, a, b, enqueued)
  {
    ExtendShortest(store, f, a, visited, done, curr, b);
    assert AllowedWalk(store, f, a, curr + [b]) && Last(curr + [b]) == b;
  }

  lemma VisitOne(universe: set<Id>, visited: set<Id>, x: Id)
    requires x in universe && x !in visited
    ensures |universe - (visited + {x})| == |universe - visited| - 1
  {
    assert universe - (visited + {x}) == (universe - visited) - {x};
  }

  /** Appending a path that ends at a newly visited node keeps the queue state. */
  lemma PushBack(store: Store, f: Filter, a: Id, queue: seq<seq<Id>>, visited: set<Id>,
                 enqueued: seq<Id>, head: nat, p: seq<Id>, x: Id)
    requires QueueState(store, f, a, queue, visited, enqueued, head)
    requires Queued(store, f, a, p) && |p| > 0 && Last(p) == x && x !in visited && Allowed(store, f, x)
    requires forall y :: y in p ==> y in visited + {x}
    requires forall i :: 0 <= i < |queue| ==> |queue[i]| <= |p| <= |queue[i]| + 1
    ensures QueueState(store, f, a, queue + [p], visited + {x}, enqueued + [x], head)
    ensures (enqueued + [x])[head..] == enqueued[head..] + [x]
  {
    AppendQueued(store, f, a, queue, p);
    AppendVisited(queue, visited, p, x);
    AppendLevelled(queue, p);
    AppendLasts(queue, enqueued, head, p, x);
    AppendFresh(enqueued, x);
    AppendAllowed(store, f, enqueued, x);
    assert (enqueued + [x])[head..] == enqueued[head..] + [x];
  }

  lemma AppendQueued(store: Store, f: Filter, a: Id, queue: seq<seq<Id>>, p: seq<Id>)
    requires forall i :: 0 <= i < |queue| ==> Queued(store, f, a, queue[i])
    requires Queued(store, f, a, p)
    ensures forall i :: 0 <= i < |queue + [p]| ==> Queued(store, f, a, (queue + [p])[i])
  {
    assert forall i :: 0 <= i < |queue| ==> (queue + [p])[i] == queue[i];
  }

  lemma AppendVisited(queue: seq<seq<Id>>, visited: set<Id>, p: seq<Id>, x: Id)
    requires forall i, y :: 0 <= i < |queue| && y in queue[i] ==> y in visited
    requires forall y :: y in p ==> y in visited + {x}
    ensures forall i, y :: 0 <= i < |queue + [p]| && y in (queue + [p])[i] ==> y in visited + {x}
  {
    assert forall i :: 0 <= i < |queue| ==> (queue + [p])[i] == queue[i];
  }

  lemma AppendLasts(queue: seq<seq<Id>>, enqueued: seq<Id>, head: nat, p: seq<Id>, x: Id)
    requires |enqueued| == head + |queue|
    requires forall i :: 0 <= i < |queue| ==> |queue[i]| > 0 && Last(queue[i]) == enqueued[head + i]
    requires |p| > 0 && Last(p) == x
    ensures forall i :: 0 <= i < |queue + [p]| ==>
              |(queue + [p])[i]| > 0 && Last((queue + [p])[i]) == (enqueued + [x])[head + i]
  {
    assert forall i :: 0 <= i < |queue| ==> (queue + [p])[i] == queue[i];
    assert forall i :: 0 <= i < |enqueued| ==> (enqueued + [x])[i] == enqueued[i];
  }

  lemma AppendAllowed(store: Store, f: Filter, s: seq<Id>, x: Id)
    requires forall i :: 0 < i < |s| ==> Allowed(store, f, s[i])
    requires Allowed(store, f, x)
    ensures forall i :: 0 < i < |s + [x]| ==> Allowed(store, f, (s + [x])[i])
  {
    forall i | 0 < i < |s + [x]|
      ensures Allowed(store, f, (s + [x])[i])
    {
      if i < |s| {
        assert (s + [x])[i] == s[i];
      }
    }
  }

  lemma AppendFresh(s: seq<Id>, x: Id)
    requires NoRepeats(s) && x !in s
    ensures NoRepeats(s + [x])
  {
  }

  lemma AppendLevelled(queue: seq<seq<Id>>, p: seq<Id>)
    requires Levelled(queue)
    requires forall i :: 0 <= i < |queue| ==> |queue[i]| <= |p| <= |queue[i]| + 1
    ensures Levelled(queue + [p])
  {
  }

  /** A newly discovered neighbour that passes the filter is marked visited and
      its path is appended to the queue. */
  lemma VisitAndEnqueue(store: Store, f: Filter, a: Id, b: Id, universe: set<Id>,
                        queue: seq<seq<Id>>, visited: set<Id>, done: set<Id>, enqueued: seq<Id>, head: nat,
                        curr: seq<Id>, neighbours: set<Id>, measure: nat, x: Id)
    requires InnerInv(store, f, a, b, universe, queue, visited, done, enqueued, head, curr, neighbours, measure)
    requires x in neighbours && x != b && x !in visited && Allowed(store, f, x)
    ensures InnerInv(store, f, a, b, universe, queue + [curr + [x]], visited + {x}, done, enqueued + [x], head,
                     curr, neighbours - {x}, measure)
  {
    ExtendShortest(store, f, a, visited, done, curr, x);
    assert x in universe by {
      assert x in AdjacentNodes(store, Last(curr));
    }
    VisitOne(universe, visited, x);
    var p := curr + [x];
    ExtendQueued(store, f, a, curr, x);
    AppendWithin(queue, |curr|, p);
    PushBack(store, f, a, queue, visited, enqueued, head, p, x);
    BoundAfterVisit(store, f, a, visited, done, |curr|, x);
    PendingAfterPush(store, f, a, visited, done, enqueued, head, Last(curr), x);
  }

  /** The extension of a queued path by an allowed node with no shorter walk is queued too. */
  lemma ExtendQueued(store: Store, f: Filter, a: Id, curr: seq<Id>, x: Id)
    requires Queued(store, f, a, curr) && Allowed(store, f, x)
    requires AllowedWalk(store, f, a, curr + [x]) && NoRepeats(curr + [x])
    requires NoShorterWalk(store, f, a, x, |curr| + 1)
    ensures Queued(store, f, a, curr + [x])
  {
    var p := curr + [x];
    assert forall i :: 0 < i < |p| - 1 ==> p[i] == curr[i];
  }

  /** Appending a path one node longer than the level keeps the queue within the level. */
  lemma AppendWithin(queue: seq<seq<Id>>, level: nat, p: seq<Id>)
    requires forall i :: 0 <= i < |queue| ==> level <= |queue[i]| <= level + 1
    requires |p| == level + 1
    ensures forall i :: 0 <= i < |queue + [p]| ==> level <= |(queue + [p])[i]| <= level + 1
  {
  }

  /** Visiting a node with no allowed walk shorter than `level + 1` keeps the bound. */
  lemma BoundAfterVisit(store: Store, f: Filter, a: Id, visited: set<Id>, done: set<Id>, level: nat, x: Id)
    requires PendingBound(store, f, a, visited, done, level)
    requires NoShorterWalk(store, f, a, x, level + 1)
    ensures PendingBound(store, f, a, visited + {x}, done, level)
  {
  }

  /** A node that is visited and enqueued in the same step is pending in the queue. */
  lemma PendingAfterPush(store: Store, f: Filter, a: Id, visited: set<Id>, done: set<Id>,
                         enqueued: seq<Id>, head: nat, u: Id, x: Id)
    requires head <= |enqueued|
    requires forall y :: y in visited && Expandable(store, f, a, y) && y !in done ==>
               y in enqueued[head..] || y == u
    ensures forall y :: y in visited + {x} && Expandable(store, f, a, y) && y !in done ==>
              y in (enqueued + [x])[head..] || y == u
  {
    assert (enqueued + [x])[head..] == enqueued[head..] + [x];
  }

  /** A newly discovered neighbour that fails the filter is marked visited only. */
  lemma VisitOnly(store: Store, f: Filter, a: Id, b: Id, universe: set<Id>,
                  queue: seq<seq<Id>>, visited: set<Id>, done: set<Id>, enqueued: seq<Id>, head: nat,
                  curr: seq<Id>, neighbours: set<Id>, measure: nat, x: Id)
    requires InnerInv(store, f, a, b, universe, queue, visited, done, enqueued, head, curr, neighbours, measure)
    requires x in neighbours && x != b && x !in visited && !Allowed(store, f, x)
    ensures InnerInv(store, f, a, b, universe, queue, visited + {x}, done, enqueued, head,
                     curr, neighbours - {x}, measure)
  {
    assert x in universe by {
      assert x in AdjacentNodes(store, Last(curr));
    }
    VisitOne(universe, visited, x);
    assert x != a by {
      assert a in visited;
    }
    assert QueueState(store, f, a, queue, visited + {x}, enqueued, head);
  }

  /** A neighbour that was visited before is passed over. */
  lemma SkipVisited(store: Store, f: Filter, a: Id, b: Id, universe: set<Id>,
                    queue: seq<seq<Id>>, visited: set<Id>, done: set<Id>, enqueued: seq<Id>, head: nat,
                    curr: seq<Id>, neighbours: set<Id>, measure: nat, x: Id)
    requires InnerInv(store, f, a, b, universe, queue, visited, done, enqueued, head, curr, neighbours, measure)
    requires x in neighbours && x in visited
    ensures InnerInv(store, f, a, b, universe, queue, visited, done, enqueued, head,
                     curr, neighbours - {x}, measure)
  {
  }

  /** All neighbours handled: the node counts as expanded, and the measure has dropped. */
  lemma FinishNode(store: Store, f: Filter, a: Id, b: Id, universe: set<Id>,
                   queue: seq<seq<Id>>, visited: set<Id>, done: set<Id>, enqueued: seq<Id>, head: nat,
                   curr: seq<Id>, measure: nat)
    requires InnerInv(store, f, a, b, universe, queue, visited, done, enqueued, head, curr, {}, measure)
    ensures OuterInv(store, f, a, b, universe, queue, visited, done + {Last(curr)}, enqueued, head)
    ensures |universe - visited| + |queue| < measure
  {
    assert Levelled(queue);
  }

  /** Once the queue is exhausted every expandable visited node has been
      expanded, so nothing outside the visited set is reachable. */
  lemma Exhausted(store: Store, f: Filter, a: Id, b: Id, universe: set<Id>,
                  visited: set<Id>, done: set<Id>, enqueued: seq<Id>, head: nat)
    requires OuterInv(store, f, a, b, universe, [], visited, done, enqueued, head)
    ensures !Reachable(store, f, a, b)
    ensures EnqueueLog(store, f, a, b, enqueued)
  {
    if Reachable(store, f, a, b) {
      var w :| AllowedWalk(store, f, a, w) && Last(w) == b;
      assert PendingBound(store, f, a, visited, done, |w|) by {
        assert enqueued[head..] == [];
      }
      Closure(store, f, a, visited, done, |w|, w);
    }
  }

  /** When the queue runs dry, every expandable node reachable from the source
      has been expanded, and every expanded node was enqueued. */
  lemma ExhaustedExplored(store: Store, f: Filter, a: Id, b: Id, universe: set<Id>,
                          visited: set<Id>, done: set<Id>, enqueued: seq<Id>, head: nat)
    requires OuterInv(store, f, a, b, universe, [], visited, done, enqueued, head)
    requires forall u :: u in done ==> u in enqueued
    ensures ExploredAll(store, f, a, enqueued)
  {
    forall x | Expandable(store, f, a, x) && Reachable(store, f, a, x)
      ensures x in enqueued
    {
      var w :| AllowedWalk(store, f, a, w) && Last(w) == x;
      assert PendingBound(store, f, a, visited, done, |w|) by {
        assert enqueued[head..] == [];
      }
      Closure(store, f, a, visited, done, |w|, w);
      assert x in done by {
        assert enqueued[head..] == [];
      }
    }
  }

  /** `get_path`. The result is `[actor1]` when the ends coincide, otherwise a
      shortest walk from `actor1` to `actor2` without repeated nodes, or `[]`
      exactly when no walk exists. `enqueued` lists the nodes in the order they
      were put on the queue: each at most once, never the destination. */
  method GetPath(store: Store, actor1: Id, actor2: Id) returns (path: seq<Id>, ghost enqueued: seq<Id>)
    ensures actor1 == actor2 ==> path == [actor1]
    ensures path != [] ==> path[0] == actor1 && ShortestPath(store, Unrestricted, actor1, actor2, path)
    ensures path == [] <==> !Reachable(store, Unrestricted, actor1, actor2)
    ensures actor1 != actor2 ==> EnqueueLog(store, Unrestricted, actor1, actor2, enqueued)
    ensures path == [] ==> ExploredAll(store, Unrestricted, actor1, enqueued)
  {
    if actor1 == actor2 {
      assert AllowedWalk(store, Unrestricted, actor1, [actor1]);
      return [actor1], [];
    }
    ghost var f := Unrestricted;
    ghost var universe := Targets(store) + {actor1};
    ghost var done: set<Id> := {};
    ghost var head := 0;
    var queue := [[actor1]];
    var visited := {actor1};
    enqueued := [actor1];
    StartSearch(store, f, actor1, actor2);
    while queue != []
      invariant OuterInv(store, f, actor1, actor2, universe, queue, visited, done, enqueued, head)
      invariant forall u :: u in done ==> u in enqueued
      decreases |universe - visited| + |queue|
    {
      StartNode(store, f, actor1, actor2, universe, queue, visited, done, enqueued, head);
      ghost var measure := |universe - visited| + |queue|;
      var curr := queue[0];
      queue := queue[1..];
      head := head + 1;
      var neighbours := AdjacentNodes(store, Last(curr));
      while neighbours != {}
        invariant InnerInv(store, f, actor1, actor2, universe, queue, visited, done, enqueued, head,
                           curr, neighbours, measure)
        invariant forall u :: u in done + {Last(curr)} ==> u in enqueued
        decreases neighbours
      {
        var adjacent :| adjacent in neighbours;
        if adjacent == actor2 {
          FoundDestination(store, f, actor1, actor2, universe, queue, visited, done, enqueued, head,
                           curr, neighbours, measure);
          path := curr + [adjacent];
          return;
        }
        if adjacent !in visited {
          VisitAndEnqueue(store, f, actor1, actor2, universe, queue, visited, done, enqueued, head,
                          curr, neighbours, measure, adjacent);
          visited := visited + {adjacent};
          queue := queue + [curr + [adjacent]];
          enqueued := enqueued + [adjacent];
        } else {
          SkipVisited(store, f, actor1, actor2, universe, queue, visited, done, enqueued, head,
                      curr, neighbours, measure, adjacent);
        }
        neighbours := neighbours - {adjacent};
      }
      FinishNode(store, f, actor1, actor2, universe, queue, visited, done, enqueued, head, curr, measure);
      done := done + {Last(curr)};
    }
    Exhausted(store, f, actor1, actor2, universe, visited, done, enqueued, head);
    ExhaustedExplored(store, f, actor1, actor2, universe, visited, done, enqueued, head);
    path := [];
  }

  /** Every node enqueued after the source was tested first. */
  ghost predicate TestedBeforeQueued(enqueued: seq<Id>, checked: seq<Id>)
  {
    forall i :: 0 < i < |enqueued| ==> enqueued[i] in checked
  }

  /** The nodes tested so far: each once, never the source, all visited, and
      every node enqueued after the source among them. */
  ghost predicate CheckLog(checked: seq<Id>, visited: set<Id>, a: Id, enqueued: seq<Id>)
  {
    && NoRepeats(checked) && a !in checked && (forall y :: y in checked ==> y in visited)
    && TestedBeforeQueued(enqueued, checked)
  }

  /** Testing a node at its discovery keeps the log, whether or not it is then
      enqueued, and the node tested is the last entry. */
  lemma RecordCheck(checked: seq<Id>, visited: set<Id>, a: Id, enqueued: seq<Id>, x: Id)
    requires CheckLog(checked, visited, a, enqueued) && a in visited && x !in visited
    ensures CheckLog(checked + [x], visited + {x}, a, enqueued)
    ensures CheckLog(checked + [x], visited + {x}, a, enqueued + [x])
    ensures |checked + [x]| > 0 && Last(checked + [x]) == x
  {
    assert forall y :: y in checked ==> y != x;
    var c := checked + [x];
    assert x == c[|c| - 1];
    forall i | 0 < i < |enqueued| ensures enqueued[i] in c {
      assert enqueued[i] in checked;
    }
    var e := enqueued + [x];
    forall i | 0 < i < |e| ensures e[i] in c {
      if i < |enqueued| {
        assert e[i] == enqueued[i];
      }
    }
  }

  /** A node discovered unvisited next to the node being expanded is reachable
      through allowed nodes: the dequeued path extended by it is a witness. */
  lemma DiscoveredReachable(store: Store, f: Filter, a: Id, b: Id, universe: set<Id>,
                            queue: seq<seq<Id>>, visited: set<Id>, done: set<Id>, enqueued: seq<Id>, head: nat,
                            curr: seq<Id>, neighbours: set<Id>, measure: nat, x: Id)
    requires InnerInv(store, f, a, b, universe, queue, visited, done, enqueued, head, curr, neighbours, measure)
    requires x in neighbours && x !in visited
    ensures Reachable(store, f, a, x)
  {
    ExtendWalk(store, f, a, curr, x);
    assert AllowedWalk(store, f, a, curr + [x]) && Last(curr + [x]) == x;
  }

  /** `get_restricted_path`. The result is `Ok([actor1])` when the ends
      coincide; otherwise a shortest walk from `actor1` to `actor2` among those
      whose inner nodes all pass `match_requirements`, without repeated nodes, or
      `Ok([])` exactly when no such walk exists. A missing attribute row of a
      node being tested aborts the query with `MissingRow`; that node is
      reachable from `actor1` through passing nodes. `checked` lists the nodes
      tested, in order: each at most once, never an endpoint, and every
      enqueued node after the source among them.
      `enqueued` lists the nodes put on the queue: each at most once, and each
      after the source passed the test. */
  method GetRestrictedPath(store: Store, actor1: Id, actor2: Id,
                           checkIsAlive: string := "Any", releasedBefore: int := 9999, releasedAfter: int := 0)
    returns (result: Outcome<seq<Id>>, ghost checked: seq<Id>, ghost enqueued: seq<Id>)
    ensures actor1 == actor2 ==> result == Ok([actor1]) && checked == []
    ensures result.Ok? && result.value != [] ==>
              result.value[0] == actor1
              && ShortestPath(store, Restricted(checkIsAlive, releasedBefore, releasedAfter), actor1, actor2,
                              result.value)
    ensures result.Ok? && result.value != [] ==>
              forall i :: 0 < i < |result.value| - 1 ==>
                MatchRequirements(store, result.value[i], checkIsAlive, releasedBefore, releasedAfter) == Ok(true)
    ensures result.Ok? ==>
              (result.value == [] <==>
                 !Reachable(store, Restricted(checkIsAlive, releasedBefore, releasedAfter), actor1, actor2))
    ensures result.MissingRow? ==>
              |checked| > 0 && result.id == Last(checked)
              && MatchRequirements(store, result.id, checkIsAlive, releasedBefore, releasedAfter).MissingRow?
    ensures result.MissingRow? ==>
              Reachable(store, Restricted(checkIsAlive, releasedBefore, releasedAfter), actor1, result.id)
    ensures actor1 != actor2 ==> TestedBeforeQueued(enqueued, checked)
    ensures NoRepeats(checked) && actor1 !in checked && actor2 !in checked
    ensures actor1 != actor2 ==>
              EnqueueLog(store, Restricted(checkIsAlive, releasedBefore, releasedAfter), actor1, actor2, enqueued)
    ensures result == Ok([]) ==>
              ExploredAll(store, Restricted(checkIsAlive, releasedBefore, releasedAfter), actor1, enqueued)
  {
    checked := [];
    if actor1 == actor2 {
      enqueued := [];
      return Ok([actor1]), checked, enqueued;
    }
    ghost var f := Restricted(checkIsAlive, releasedBefore, releasedAfter);
    ghost var universe := Targets(store) + {actor1};
    ghost var done: set<Id> := {};
    ghost var head := 0;
    var queue := [[actor1]];
    var visited := {actor1};
    enqueued := [actor1];
    StartSearch(store, f, actor1, actor2);
    while queue != []
      invariant OuterInv(store, f, actor1, actor2, universe, queue, visited, done, enqueued, head)
      invariant forall u :: u in done ==> u in enqueued
      invariant CheckLog(checked, visited, actor1, enqueued)
      decreases |universe - visited| + |queue|
    {
      StartNode(store, f, actor1, actor2, universe, queue, visited, done, enqueued, head);
      ghost var measure := |universe - visited| + |queue|;
      var curr := queue[0];
      queue := queue[1..];
      head := head + 1;
      var neighbours := AdjacentNodes(store, Last(curr));
      while neighbours != {}
        invariant InnerInv(store, f, actor1, actor2, universe, queue, visited, done, enqueued, head,
                           curr, neighbours, measure)
        invariant forall u :: u in done + {Last(curr)} ==> u in enqueued
        invariant CheckLog(checked, visited, actor1, enqueued)
        decreases neighbours
      {
        var adjacent :| adjacent in neighbours;
        if adjacent == actor2 {
          FoundDestination(store, f, actor1, actor2, universe, queue, visited, done, enqueued, head,
                           curr, neighbours, measure);
          return Ok(curr + [adjacent]), checked, enqueued;
        }
        if adjacent !in visited {
          var verdict := MatchRequirements(store, adjacent, checkIsAlive, releasedBefore, releasedAfter);
          RecordCheck(checked, visited, actor1, enqueued, adjacent);
          checked := checked + [adjacent];
          if verdict.MissingRow? {
            DiscoveredReachable(store, f, actor1, actor2, universe, queue, visited, done, enqueued, head,
                                curr, neighbours, measure, adjacent);
            return MissingRow(verdict.id), checked, enqueued;
          }
          if verdict.value {
            VisitAndEnqueue(store, f, actor1, actor2, universe, queue, visited, done, enqueued, head,
                            curr, neighbours, measure, adjacent);
            visited := visited + {adjacent};
            queue := queue + [curr + [adjacent]];
            enqueued := enqueued + [adjacent];
          } else {
            VisitOnly(store, f, actor1, actor2, universe, queue, visited, done, enqueued, head,
                      curr, neighbours, measure, adjacent);
            visited := visited + {adjacent};
          }
        } else {
          SkipVisited(store, f, actor1, actor2, universe, queue, visited, done, enqueued, head,
                      curr, neighbours, measure, adjacent);
        }
        neighbours := neighbours - {adjacent};
      }
      FinishNode(store, f, actor1, actor2, universe, queue, visited, done, enqueued, head, curr, measure);
      done := done + {Last(curr)};
    }
    Exhausted(store, f, actor1, actor2, universe, visited, done, enqueued, head);
    ExhaustedExplored(store, f, actor1, actor2, universe, visited, done, enqueued, head);
    result := Ok([]);
  }
}
