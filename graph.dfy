/** The read contract of the actor/movie database that the search uses, and the
    two lookups built on it: the kind of a node, told by its id prefix, and the
    set of nodes adjacent to it. */
module Graph {
  import opened Strings

  /** An IMDb-style identifier: "nm…" for actors, "tt…" for movies. */
  type Id = string

  /** The three columns the search reads, keyed by id:
      `edge.connections` (a comma-separated id list), `actor.deathYear`
      and `movie.startYear`. A key that is absent stands for a missing row. */
  datatype Store = Store(
    connections: map<Id, string>,
    deathYear: map<Id, string>,
    startYear: map<Id, string>)

  datatype Kind = Actor | Movie

  /** `id[0:2]`: Python slicing, which is shorter when the id is. */
  function Prefix(id: Id): (p: string)
    ensures p <= id
    ensures |p| == if |id| < 2 then |id| else 2
  {
    if |id| < 2 then id else id[..2]
  }

  /** The test of `match_requirements`: "nm" means actor, anything else movie. */
  function Classify(id: Id): (k: Kind)
    ensures k == Actor <==> |id| >= 2 && id[0] == 'n' && id[1] == 'm'
  {
    if Prefix(id) == "nm" then Actor else Movie
  }

  /** The test of `get_name` and the graph colouring: "tt" means movie, anything else actor. */
  function DisplayKind(id: Id): (k: Kind)
    ensures k == Movie <==> |id| >= 2 && id[0] == 't' && id[1] == 't'
  {
    if Prefix(id) == "tt" then Movie else Actor
  }

  /** The two prefix tests agree exactly on the ids that carry one of the two prefixes. */
  lemma ClassificationsAgree(id: Id)
    ensures Classify(id) == DisplayKind(id) <==> Prefix(id) == "nm" || Prefix(id) == "tt"
  {
    if Prefix(id) == "nm" {
      assert Prefix(id)[0] != 't';
    }
  }

  /** `get_adjacent_nodes`: no edge row gives the empty set, otherwise the set of
      comma-separated pieces of the stored string (duplicates collapse). */
  function AdjacentNodes(store: Store, id: Id): (adj: set<Id>)
    ensures id !in store.connections <==> adj == {}
    ensures id in store.connections ==>
              forall x :: x in adj <==> x in Split(store.connections[id], ',')
  {
    if id !in store.connections then {}
    else
      var pieces := Split(store.connections[id], ',');
      var adj := set x | x in pieces;
      assert pieces[0] in adj;
      adj
  }

  /** Decoding the stored string inverts encoding an id list: the adjacency of a
      node whose row holds comma-free ids joined by commas is the set of those ids. */
  lemma AdjacentNodesDecodes(store: Store, id: Id, ids: seq<Id>)
    requires |ids| > 0 && forall i :: 0 <= i < |ids| ==> ',' !in ids[i]
    requires id in store.connections && store.connections[id] == Join(ids, ',')
    ensures AdjacentNodes(store, id) == set x | x in ids
  {
    SplitJoin(ids, ',');
  }

  /** Every id that occurs in some stored connection list. */
  function Targets(store: Store): (t: set<Id>)
    ensures forall id :: AdjacentNodes(store, id) <= t
  {
    set k, x | k in store.connections && x in Split(store.connections[k], ',') :: x
  }

  /** The store is bipartite when every stored connection crosses between actors and movies. */
  ghost predicate Bipartite(store: Store)
  {
    forall id, x :: x in AdjacentNodes(store, id) ==> Classify(x) != Classify(id)
  }
}
