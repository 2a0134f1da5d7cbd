# Shortest actor chains: a verified model of the search core

This project models the search core of `ShortestActorGraph` in `graph_processing.py`.
It finds the shortest chain of actors and movies that links two actors, a "degrees of
separation" search. Nodes are identifiers: `nm…` for actors and `tt…` for movies. An actor
is adjacent to the movies they played in, and a movie to its cast. Adjacency is read on
demand from the `edge` table.

The model covers:

- **Identifier scheme** (`Graph.Classify`, `Graph.DisplayKind`). The two prefix tests the
  code uses: `'nm'` means actor in `match_requirements`, and `'tt'` means movie in
  `get_name` and in the colouring of `make_networkx_graph`.
- **Adjacency** (`Graph.AdjacentNodes`). `get_adjacent_nodes` returns the empty set when no
  edge row exists. Otherwise it returns the set of comma-separated pieces of the stored
  string, with duplicates collapsed. `Strings.Split` models Python's `str.split`.
- **Eligibility** (`Eligibility.MatchRequirements`). `match_requirements` is modelled as
  written:
  - An actor passes exactly when "no recorded death year" (`"\N"`) coincides with asking
    for `"alive"`, case-insensitively.
  - A movie with a non-numeric start year passes.
  - Any other movie must lie strictly inside the window `want_after < year < want_before`.
  - A missing row makes `fetchone()[0]` raise. The model returns `MissingRow(id)` instead.
- **`check_alive_helper`** (`Eligibility.CheckAliveHelper`). No search calls it. It is
  proved to be the complement of the actor test for the two named requests.
- **Breadth-first searches** (`Search.GetPath`, `Search.GetRestrictedPath`). They are
  imperative methods, like the source: a queue of paths, a visited set, and a loop over the
  neighbours of the dequeued node, whose order is left arbitrary.
  - Each method returns `[actor1]` when the ends coincide.
  - Otherwise it returns a shortest walk from `actor1` to `actor2` whose inner nodes all
    pass the filter, with no repeated node.
  - It returns `[]` exactly when no such walk exists.
  - The restricted search tests a node only when it first discovers it, and never tests
    the destination. The source marks the node visited and then tests it. The model tests
    first and then updates the visited set. Nobody can observe the difference: when the
    test succeeds, both orders end in the same state. When a row is missing, the query
    aborts and the visited set is discarded, as the exception does in the source.
  - `GetRestrictedPath` keeps the source's default arguments: `"Any"`, `9999` and `0`.
    `Walks.DefaultRestriction` names this filter.

The database is replaced by `Graph.Store`, three maps keyed by id: `edge.connections`,
`actor.deathYear` and `movie.startYear`. `ShortestActorGraph` only holds the database path
and never changes it, so the searches are methods over a `Store` value rather than a class.

Where the documentation and the code differ, the model follows the code:

- The docstring of `get_restricted_path` describes the year bounds as inclusive ("before or
  during", "after or during"). The code compares strictly, so a movie released in a bound
  year is rejected (`Eligibility.MovieWindow`).
- `get_restricted_path` defaults `check_is_alive` to `"Any"`. Its precondition only lists
  `"alive"`, `"deceased"` and `""`. The actor test treats every request other than
  `"alive"` like `"deceased"`. So the default request admits only actors with a recorded
  death year (`Eligibility.DefaultRequestRejectsUnrecordedDeath`).

## Model

| member | source | states |
|---|---|---|
| Strings.Split | graph_processing.py:228 | `str.split` on one separator: never an empty list, no piece holds the separator, and joining the pieces with the separator gives the input back |
| Strings.SplitJoin | graph_processing.py:228 | round trip: separator-free pieces, joined and split again, come back unchanged |
| Strings.Lower | graph_processing.py:328 | `lower()` keeps the length and leaves no upper-case ASCII letter: each upper-case letter becomes its lower-case partner and every other character is kept |
| Strings.LowerMatchesWord | graph_processing.py:328 | for a word with no upper-case letter, such as `"alive"` or `"deceased"`, `s.lower() == word` exactly when `s` spells the word ignoring ASCII case |
| Strings.IsNumeric | graph_processing.py:332 | a numeric string is non-empty and all digits, so it is some leading zeros followed by the numeral `str` prints for its value |
| Strings.DecimalValue | graph_processing.py:335 | `int` of a `k`-digit string is below `10^k` |
| Strings.LeadingZeroIgnored | graph_processing.py:335 | a leading zero does not change the value `int` reads |
| Strings.PaddedNumeral | graph_processing.py:332-335 | every digit string is its leading zeros followed by the canonical numeral of the value `int` reads from it |
| Strings.DecimalString | graph_processing.py:332-335 | the numeral of a year is non-empty, all digits and without a leading zero (unless it is `0`), and `int` reads it back as that year |
| Graph.Prefix | graph_processing.py:325 | `id[0:2]` is a prefix of the id, of length two or the whole id when shorter |
| Graph.Classify | graph_processing.py:325 | an id is an actor exactly when it starts with `n`, `m`; anything else counts as a movie |
| Graph.DisplayKind | graph_processing.py:134 | an id is a movie exactly when it starts with `t`, `t`; anything else counts as an actor |
| Graph.ClassificationsAgree | graph_processing.py:82 | the `'tt'` test and the `'nm'` test agree exactly on ids whose prefix is `nm` or `tt` |
| Graph.AdjacentNodes | graph_processing.py:203-228 | no edge row if and only if the result is empty; otherwise membership is exactly membership among the comma-separated pieces |
| Graph.AdjacentNodesDecodes | graph_processing.py:222-228 | a row that stores comma-free ids joined by commas decodes to exactly the set of those ids |
| Graph.Targets | graph_processing.py:203-228 | every adjacency set lies inside the set of all ids named in some connection list |
| Eligibility.MatchRequirements | graph_processing.py:300-340 | the test fails with `MissingRow(id)` exactly when the row of the table its prefix selects is absent |
| Eligibility.ActorRequirement | graph_processing.py:325-328 | for an actor, `"alive"` in any case admits exactly the actors with no recorded death year; any other request admits exactly those with one |
| Eligibility.DefaultRequestRejectsUnrecordedDeath | graph_processing.py:342 | under the default request `"Any"`, an actor with no recorded death year is rejected |
| Eligibility.MovieWindow | graph_processing.py:330-335 | a movie dated `year` passes exactly when `want_after < year < want_before` |
| Eligibility.UnreadableYearPasses | graph_processing.py:332-333 | a movie whose start year is not numeric passes whatever the window |
| Eligibility.EmptyWindowAdmitsNoDatedMovie | graph_processing.py:335 | a window with no whole year strictly inside it rejects every dated movie |
| Eligibility.NarrowerWindowAdmitsLess | graph_processing.py:335 | narrowing the window never admits a node that the wider window rejects |
| Eligibility.CheckAliveHelper | graph_processing.py:289-298 | for `"alive"` and `"deceased"` the helper is the negation of the actor test; for any other request it accepts everyone |
| Walks.DefaultRestrictionInnerNodes | graph_processing.py:342 | under the default arguments `"Any"`, `9999` and `0`, every inner node of an allowed walk is an actor with a recorded death year, or a movie whose start year is unreadable or lies strictly between 0 and 9999 |
| Walks.Closure | graph_processing.py:273-284 | breadth-first closure: if expanded nodes have all neighbours visited and pending nodes have no shorter walk than the current level, every allowed walk up to that level ends at a visited node |
| Walks.UnrestrictedIsLoosest | graph_processing.py:342-382 | the unrestricted search allows at least every node a restricted one allows |
| Walks.NarrowerWindowIsTighter | graph_processing.py:342-382 | narrowing the release window gives a filter that allows fewer nodes |
| Walks.TighterNeverShorter | graph_processing.py:342-382 | a shortest path under a tighter filter is never shorter than one under a looser filter |
| Walks.TighterReachesLess | graph_processing.py:342-382 | whatever a tighter filter reaches, a looser one reaches too |
| Walks.WalkAlternates | graph_processing.py:203-228 | in a store whose connections all cross between actors and movies, a walk alternates kinds position by position |
| Walks.ActorToActorIsOdd | graph_processing.py:253-286 | in such a store, a walk between two actors has an odd number of nodes |
| Search.GetPath | graph_processing.py:253-286 | `[actor1]` when the ends coincide; otherwise a shortest walk without repeats from `actor1` to `actor2`, or `[]` exactly when `actor2` is unreachable; each node is enqueued at most once and the destination never; when the result is `[]`, every node reachable from `actor1` was enqueued |
| Search.GetRestrictedPath | graph_processing.py:342-382 | same defaults as the source; as `GetPath`, but over walks whose inner nodes pass `match_requirements`; every inner node of the result passes; each discovered node is tested at most once, endpoints never, and every enqueued node after `actor1` was tested first; a missing row aborts with the id of the node being tested, and that node is reachable from `actor1` through passing nodes, so a store that has the row of every node reachable that way always gets `Ok`; when the result is `Ok([])`, every node that passes the test and is reachable from `actor1` through passing nodes was enqueued |
| Search.RecordCheck | graph_processing.py:377-379 | testing a newly discovered node keeps the log of tested nodes, whether or not it is then enqueued, and makes it the last entry |
| Search.DiscoveredReachable | graph_processing.py:371-379 | a node discovered unvisited next to the node being expanded is reachable from `actor1` through passing nodes |
| Search.FoundDestination | graph_processing.py:279-280 | when the destination is a neighbour, the dequeued path extended by it is a shortest allowed walk |
| Search.Exhausted | graph_processing.py:274-286 | an empty queue means the destination is unreachable |
| Search.ExhaustedExplored | graph_processing.py:274-286 | when the queue runs dry, every expandable node reachable from the source was enqueued |

## Left out

- The SQLite database and its connections, cursors and queries are replaced by the
  `Store` maps. The `__init__` check that the database file exists is not part of this
  model.
- `get_name`, `get_actor_id`, `get_valid_actors` and `make_networkx_graph` are outside the
  search core and are not modelled. Only the `'tt'` prefix test of the first and last is
  modelled (`Graph.DisplayKind`).
- `sql_processing.py`, `gui_interface.py` and `main.py` are not part of this model.
- A NULL column value, which Python would read as `None`, is not modelled. Every stored
  value is a string.
- `Strings.Lower` and `Strings.IsNumeric` cover ASCII only. Python's `str.lower` and
  `str.isnumeric` also handle other Unicode letters and numerals.
- The iteration order of a Python set is not modelled. The neighbour loop picks any
  remaining neighbour, so the contracts hold for every order. Which of several shortest
  paths is returned is not determined.
- The visited set, the queue and the path lists are values that the loops reassign,
  rather than objects mutated in place. Nothing else aliases them in the source.
- `Search.GetPath` and `Search.GetRestrictedPath` also return ghost logs: `enqueued`, and
  for the restricted search `checked`. These state the visited-once behaviour and exist
  only for the proofs.
