/** The eligibility test of a restricted search (`match_requirements`) and the
    unused alternative actor test (`check_alive_helper`). */
module Eligibility {
  import opened Strings
  import opened Graph

  /** A lookup either yields a value or fails because the id has no row in the
      table it needs; `fetchone()[0]` raises in that case. */
  datatype Outcome<T> = Ok(value: T) | MissingRow(id: Id)

  /** The value the database stores for "no death year recorded". */
  const NotRecorded: string := "\\N"

  /** The actor test: an actor passes when "no death year" coincides with
      asking for "alive" (case-insensitively). */
  predicate ActorMatches(deathYear: string, wantAlive: string)
  {
    (deathYear == NotRecorded) == (Lower(wantAlive) == "alive")
  }

  /** The movie test: an unreadable year passes, otherwise the year must lie
      strictly inside the window. */
  predicate MovieMatches(startYear: string, wantBefore: int, wantAfter: int)
  {
    !IsNumeric(startYear) || wantAfter < DecimalValue(startYear) < wantBefore
  }

  /** `match_requirements`: classify by prefix, look up the one attribute that
      matters and test it. A missing row is the only failure. */
  function MatchRequirements(store: Store, nodeId: Id, wantAlive: string, wantBefore: int, wantAfter: int)
    : (r: Outcome<bool>)
    ensures r.MissingRow? <==>
              if Classify(nodeId) == Actor then nodeId !in store.deathYear else nodeId !in store.startYear
    ensures r.MissingRow? ==> r.id == nodeId
  {
    if Classify(nodeId) == Actor then
      if nodeId !in store.deathYear then MissingRow(nodeId)
      else Ok(ActorMatches(store.deathYear[nodeId], wantAlive))
    else
      if nodeId !in store.startYear then MissingRow(nodeId)
      else Ok(MovieMatches(store.startYear[nodeId], wantBefore, wantAfter))
  }

  /** For an actor with a row: asking for "alive" (in any case) admits exactly the
      actors with no recorded death year; any other request, including the default
      "Any" and "deceased", admits exactly those with one. The window plays no part. */
  lemma ActorRequirement(store: Store, id: Id, wantAlive: string, wantBefore: int, wantAfter: int)
    requires Classify(id) == Actor && id in store.deathYear
    ensures Lower(wantAlive) == "alive" ==>
              (MatchRequirements(store, id, wantAlive, wantBefore, wantAfter) == Ok(true)
               <==> store.deathYear[id] == "\\N")
    ensures Lower(wantAlive) != "alive" ==>
              (MatchRequirements(store, id, wantAlive, wantBefore, wantAfter) == Ok(true)
               <==> store.deathYear[id] != "\\N")
  {
  }

  /** The default request "Any" is not "alive", so it admits only actors whose
      death year is recorded. */
  lemma DefaultRequestRejectsUnrecordedDeath(store: Store, id: Id, wantBefore: int, wantAfter: int)
    requires Classify(id) == Actor && id in store.deathYear && store.deathYear[id] == "\\N"
    ensures MatchRequirements(store, id, "Any", wantBefore, wantAfter) == Ok(false)
  {
    assert Lower("Any")[0] == 'a' && Lower("Any")[1] == 'n';
  }

  /** A movie whose start year is the numeral of `year` passes exactly when
      `wantAfter < year < wantBefore`: both bounds are exclusive. */
  lemma MovieWindow(store: Store, id: Id, year: nat, wantAlive: string, wantBefore: int, wantAfter: int)
    requires Classify(id) == Movie && id in store.startYear && store.startYear[id] == DecimalString(year)
    ensures MatchRequirements(store, id, wantAlive, wantBefore, wantAfter) == Ok(wantAfter < year < wantBefore)
  {
  }

  /** A movie whose start year is not numeric (for instance "\N") passes whatever the window. */
  lemma UnreadableYearPasses(store: Store, id: Id, wantAlive: string, wantBefore: int, wantAfter: int)
    requires Classify(id) == Movie && id in store.startYear && !IsNumeric(store.startYear[id])
    ensures MatchRequirements(store, id, wantAlive, wantBefore, wantAfter) == Ok(true)
  {
  }

  /** A window with no whole year strictly inside it (`wantBefore <= wantAfter + 1`)
      admits no movie with a numeric start year. */
  lemma EmptyWindowAdmitsNoDatedMovie(store: Store, id: Id, wantAlive: string, wantBefore: int, wantAfter: int)
    requires wantBefore <= wantAfter + 1
    requires Classify(id) == Movie && id in store.startYear && IsNumeric(store.startYear[id])
    ensures MatchRequirements(store, id, wantAlive, wantBefore, wantAfter) == Ok(false)
  {
  }

  /** Narrowing the window never admits a node the wider window rejects. */
  lemma NarrowerWindowAdmitsLess(store: Store, id: Id, wantAlive: string,
                                 before1: int, after1: int, before2: int, after2: int)
    requires after1 <= after2 && before2 <= before1
    ensures MatchRequirements(store, id, wantAlive, before2, after2) == Ok(true) ==>
              MatchRequirements(store, id, wantAlive, before1, after1) == Ok(true)
  {
  }

  /** `check_alive_helper`, which no search calls: it reads "\N" as dead, rejecting
      it for "alive", and rejects any recorded year for "deceased". For those two
      requests it is the exact opposite of the test the search uses, and for any
      other request it accepts everyone. */
  function CheckAliveHelper(wantAlive: string, deathYear: string): (ok: bool)
    ensures Lower(wantAlive) == "alive" || Lower(wantAlive) == "deceased" ==>
              ok == !ActorMatches(deathYear, wantAlive)
    ensures Lower(wantAlive) != "alive" && Lower(wantAlive) != "deceased" ==> ok
  {
    if deathYear == NotRecorded then Lower(wantAlive) != "alive"
    else Lower(wantAlive) != "deceased"
  }
}
