/** Walks through the adjacency relation, the filter a restricted search puts on
    the nodes it passes through, and what "shortest" and "unreachable" mean. */
module Walks {
  import opened Strings
  import opened Graph
  import opened Eligibility

  /** What a search lets it pass through: everything, or only the nodes that
      `match_requirements` accepts for the given request. */
  datatype Filter =
    | Unrestricted
    | Restricted(wantAlive: string, releasedBefore: int, releasedAfter: int)

  /** The defaults of `get_restricted_path`. */
  const DefaultRestriction: Filter := Restricted("Any", 9999, 0)

  predicate Allowed(store: Store, f: Filter, x: Id)
  {
    match f
    case Unrestricted => true
    case Restricted(wantAlive, before, after) =>
      MatchRequirements(store, x, wantAlive, before, after) == Ok(true)
  }

  function Last(p: seq<Id>): Id
    requires |p| > 0
  {
    p[|p| - 1]
  }

  /** A non-empty node sequence in which each node is adjacent to the one before. */
  predicate IsWalk(store: Store, p: seq<Id>)
  {
    |p| > 0 && forall i :: 0 <= i < |p| - 1 ==> p[i + 1] in AdjacentNodes(store, p[i])
  }

  predicate NoRepeats(p: seq<Id>)
  {
    forall i, j :: 0 <= i < j < |p| ==> p[i] != p[j]
  }

  /** A walk from `a` whose nodes strictly between its ends all pass the filter. */
  predicate AllowedWalk(store: Store, f: Filter, a: Id, p: seq<Id>)
  {
    IsWalk(store, p) && p[0] == a && forall i :: 0 < i < |p| - 1 ==> Allowed(store, f, p[i])
  }

  /** No allowed walk from `a` to `b` has fewer than `n` nodes. */
  ghost predicate NoShorterWalk(store: Store, f: Filter, a: Id, b: Id, n: nat)
  {
    forall w {:trigger AllowedWalk(store, f, a, w)} :: AllowedWalk(store, f, a, w) && Last(w) == b ==> n <= |w|
  }

  ghost predicate Reachable(store: Store, f: Filter, a: Id, b: Id)
  {
    exists w {:trigger AllowedWalk(store, f, a, w)} :: AllowedWalk(store, f, a, w) && Last(w) == b
  }

  /** `p` is a shortest allowed walk from `a` to `b`, and it repeats no node. */
  ghost predicate ShortestPath(store: Store, f: Filter, a: Id, b: Id, p: seq<Id>)
  {
    AllowedWalk(store, f, a, p) && Last(p) == b && NoRepeats(p) && NoShorterWalk(store, f, a, b, |p|)
  }

  /** A node a search expands: the source, or a node that passes the filter. */
  predicate Expandable(store: Store, f: Filter, a: Id, x: Id)
  {
    x == a || Allowed(store, f, x)
  }

  /** Dropping the last node of an allowed walk leaves an allowed walk, whose
      last node is expandable. */
  lemma AllowedPrefix(store: Store, f: Filter, a: Id, w: seq<Id>)
    requires AllowedWalk(store, f, a, w) && |w| > 1
    ensures AllowedWalk(store, f, a, w[..|w| - 1])
    ensures Expandable(store, f, a, w[|w| - 2])
    ensures Last(w) in AdjacentNodes(store, w[|w| - 2])
  {
    assert |w| > 2 ==> Allowed(store, f, w[|w| - 2]);
  }

  /** The heart of breadth-first search. Suppose every expanded ("done") node has
      all its neighbours visited, and every visited expandable node that is not
      done has no allowed walk shorter than `level`. Then every allowed walk of at
      most `level` nodes ends at a visited node. */
  lemma {:induction false} Closure(store: Store, f: Filter, a: Id, visited: set<Id>, done: set<Id>,
                                   level: nat, w: seq<Id>)
    requires a in visited && done <= visited
    requires forall u :: u in done ==> AdjacentNodes(store, u) <= visited
    requires forall x :: x in visited && Expandable(store, f, a, x) && x !in done ==>
               NoShorterWalk(store, f, a, x, level)
    requires AllowedWalk(store, f, a, w) && |w| <= level
    ensures Last(w) in visited
    decreases |w|
  {
    if |w| > 1 {
      var v := w[..|w| - 1];
      AllowedPrefix(store, f, a, w);
      Closure(store, f, a, visited, done, level, v);
      var y := w[|w| - 2];
      assert Last(v) == y;
      assert y in done;
    }
  }

  /** Under the defaults of `get_restricted_path` ("Any", 9999, 0) every inner
      node of an allowed walk is an actor with a recorded death year, or a movie
      whose start year is unreadable or lies strictly between 0 and 9999. */
  lemma DefaultRestrictionInnerNodes(store: Store, a: Id, p: seq<Id>)
    requires AllowedWalk(store, DefaultRestriction, a, p)
    ensures forall i :: 0 < i < |p| - 1 && Classify(p[i]) == Actor ==>
              p[i] in store.deathYear && store.deathYear[p[i]] != NotRecorded
    ensures forall i :: 0 < i < |p| - 1 && Classify(p[i]) == Movie ==>
              p[i] in store.startYear
              && (IsNumeric(store.startYear[p[i]]) ==> 0 < DecimalValue(store.startYear[p[i]]) < 9999)
  {
    assert Lower("Any") != "alive";
    forall i | 0 < i < |p| - 1 && Classify(p[i]) == Actor
      ensures p[i] in store.deathYear && store.deathYear[p[i]] != NotRecorded
    {
      assert Allowed(store, DefaultRestriction, p[i]);
      ActorRequirement(store, p[i], "Any", 9999, 0);
    }
  }

  /** A filter is at least as permissive as another when it allows every node the other allows. */
  ghost predicate Looser(store: Store, tight: Filter, loose: Filter)
  {
    forall x :: Allowed(store, tight, x) ==> Allowed(store, loose, x)
  }

  lemma UnrestrictedIsLoosest(store: Store, f: Filter)
    ensures Looser(store, f, Unrestricted)
  {
  }

  /** Narrowing the release window of a request gives a tighter filter. */
  lemma NarrowerWindowIsTighter(store: Store, wantAlive: string,
                                before1: int, after1: int, before2: int, after2: int)
    requires after1 <= after2 && before2 <= before1
    ensures Looser(store, Restricted(wantAlive, before2, after2), Restricted(wantAlive, before1, after1))
  {
    forall x | Allowed(store, Restricted(wantAlive, before2, after2), x)
      ensures Allowed(store, Restricted(wantAlive, before1, after1), x)
    {
      NarrowerWindowAdmitsLess(store, x, wantAlive, before1, after1, before2, after2);
    }
  }

  /** Monotonic restriction: a shortest path under a tighter filter is never
      shorter than one under a looser filter between the same ends, and whatever
      the tighter filter reaches, the looser one reaches too. */
  lemma TighterNeverShorter(store: Store, tight: Filter, loose: Filter, a: Id, b: Id,
                            p: seq<Id>, q: seq<Id>)
    requires Looser(store, tight, loose)
    requires ShortestPath(store, tight, a, b, p)
    requires ShortestPath(store, loose, a, b, q)
    ensures |q| <= |p|
  {
    assert AllowedWalk(store, loose, a, p);
  }

  lemma TighterReachesLess(store: Store, tight: Filter, loose: Filter, a: Id, b: Id)
    requires Looser(store, tight, loose)
    ensures Reachable(store, tight, a, b) ==> Reachable(store, loose, a, b)
  {
    if Reachable(store, tight, a, b) {
      var w :| AllowedWalk(store, tight, a, w) && Last(w) == b;
      assert AllowedWalk(store, loose, a, w);
    }
  }

  /** In a bipartite store every walk alternates between actors and movies: the
      node at an even position has the kind of the first node, the node at an odd
      position the other kind. */
  lemma {:induction false} WalkAlternates(store: Store, p: seq<Id>, i: nat)
    requires Bipartite(store) && IsWalk(store, p) && i < |p|
    ensures (Classify(p[i]) == Classify(p[0])) <==> i % 2 == 0
  {
    if i > 0 {
      WalkAlternates(store, p, i - 1);
      assert p[i] in AdjacentNodes(store, p[i - 1]);
    }
  }

  /** A walk between two actors of a bipartite store has an odd number of nodes. */
  lemma ActorToActorIsOdd(store: Store, p: seq<Id>)
    requires Bipartite(store) && IsWalk(store, p)
    requires Classify(p[0]) == Actor && Classify(Last(p)) == Actor
    ensures |p| % 2 == 1
  {
    WalkAlternates(store, p, |p| - 1);
  }
}
