/** Properties of the task listing and of the row operations the service
    performs, stated over the repository functions. */
module TaskProperties {
  import opened SqlText
  import opened TaskRepository

  /** The status and search filters combine with AND: the listing for both is
      the intersection of the listings for each alone. */
  lemma FiltersCombineByAnd(table: Table, status: Option<string>, search: Option<string>, user: User)
    ensures Query(table, GetTasksFilter(status, search), user)
         == Query(table, GetTasksFilter(status, None), user) * Query(table, GetTasksFilter(None, search), user)
  {
  }

  /** An empty status and an empty search term restrict nothing: they fail
      the truthiness test, exactly as absent parameters do. */
  lemma EmptyParametersRestrictNothing(table: Table, user: User)
    ensures Query(table, GetTasksFilter(Some(""), Some("")), user) == Query(table, NoFilter, user)
  {
  }

  /** The status comparison is exact: a non-empty status that names no
      status value (e.g. "done") lists nothing. */
  lemma UnknownStatusListsNothing(table: Table, name: string, search: Option<string>, user: User)
    requires name != ""
    requires forall s :: StatusName(s) != name
    ensures Query(table, GetTasksFilter(Some(name), search), user) == {}
  {
  }

  /** A given status restricts the listing to tasks whose status is exactly it. */
  lemma StatusFilterIsExact(table: Table, s: TaskStatus, search: Option<string>, user: User, t: Task)
    requires t in Query(table, GetTasksFilter(Some(StatusName(s)), search), user)
    ensures t.status == s
  {
  }

  /** The search is case-insensitive in the term: lower-casing the term
      first lists the same tasks. */
  lemma SearchIgnoresTermCase(table: Table, status: Option<string>, term: string, user: User)
    ensures Query(table, GetTasksFilter(status, Some(Lower(term))), user)
         == Query(table, GetTasksFilter(status, Some(term)), user)
  {
  }

  /** A task whose title or description holds the term as written is listed
      by a search for that term. */
  lemma ExactOccurrenceIsListed(table: Table, term: string, user: User, t: Task)
    requires t in table.Values && OwnedBy(t, user)
    requires Contains(t.title, term) || Contains(t.description, term)
    ensures t in Query(table, GetTasksFilter(None, Some(term)), user)
  {
    if Contains(t.title, term) {
      LowerPreservesContains(t.title, term);
    } else {
      LowerPreservesContains(t.description, term);
    }
  }

  /** Searching for a term that contains another (ignoring case) lists a
      subset of what the shorter term lists. */
  lemma LongerTermNarrows(table: Table, status: Option<string>, longer: string, shorter: string, user: User)
    requires Contains(Lower(longer), Lower(shorter))
    ensures Query(table, GetTasksFilter(status, Some(longer)), user)
         <= Query(table, GetTasksFilter(status, Some(shorter)), user)
  {
    forall t | t in Query(table, GetTasksFilter(status, Some(longer)), user)
      ensures t in Query(table, GetTasksFilter(status, Some(shorter)), user)
    {
      if shorter != "" {
        assert longer != "" by {
          var i :| 0 <= i <= |Lower(longer)| && Lower(shorter) <= Lower(longer)[i..];
        }
        if Contains(Lower(t.title), Lower(longer)) {
          ContainsTransitive(Lower(t.title), Lower(longer), Lower(shorter));
        } else {
          ContainsTransitive(Lower(t.description), Lower(longer), Lower(shorter));
        }
      }
    }
  }

  /** The unfiltered listing and the lookup by id agree: a task is listed for
      its caller exactly when looking it up by its id finds it. */
  lemma ListingAgreesWithLookup(table: Table, user: User, t: Task)
    requires WellKeyed(table)
    ensures t in Query(table, NoFilter, user) <==> FindOneBy(table, t.id, user) == Some(t)
  {
  }

  /** A task stored under an id owned by another user is invisible: the
      lookup finds nothing and the delete affects no row. */
  lemma ForeignTaskIsUntouchable(table: Table, id: TaskId, user: User)
    requires WellKeyed(table)
    requires id in table && !OwnedBy(table[id], user)
    ensures FindOneBy(table, id, user) == None
    ensures DeleteBy(table, id, user) == DeleteResult(table, 0)
  {
  }

  /** Saving a task under a new id adds it to every listing it matches and
      changes nothing else in any listing. */
  lemma SavingNewTaskExtendsListing(table: Table, t: Task, filter: GetTasksFilter, user: User)
    requires WellKeyed(table) && t.id !in table
    ensures Query(Save(table, t), filter, user)
         == Query(table, filter, user) + (if Matches(t, filter, user) then {t} else {})
  {
  }

  /** A write to a row that is not the caller's, before or after, leaves the
      caller's listing as it was. */
  lemma ForeignSaveKeepsListing(table: Table, t: Task, filter: GetTasksFilter, user: User)
    requires WellKeyed(table) && !OwnedBy(t, user)
    requires t.id in table ==> !OwnedBy(table[t.id], user)
    ensures Query(Save(table, t), filter, user) == Query(table, filter, user)
  {
  }

  /** A delete scoped to one user leaves every other user's listing as it was. */
  lemma DeleteKeepsOtherListings(table: Table, id: TaskId, user: User, other: User, filter: GetTasksFilter)
    requires WellKeyed(table) && other.id != user.id
    ensures Query(DeleteBy(table, id, user).table, filter, other) == Query(table, filter, other)
  {
  }

  /** A delete removes exactly the looked-up task from its owner's listings. */
  lemma DeleteRemovesFoundTask(table: Table, id: TaskId, user: User, filter: GetTasksFilter)
    requires WellKeyed(table)
    ensures Query(DeleteBy(table, id, user).table, filter, user)
         == match FindOneBy(table, id, user)
            case None => Query(table, filter, user)
            case Some(t) => Query(table, filter, user) - {t}
  {
  }

  /** Deleting a task just saved under a new id restores the table. */
  lemma SaveThenDeleteRestores(table: Table, t: Task, user: User)
    requires WellKeyed(table) && t.id !in table && OwnedBy(t, user)
    ensures DeleteBy(Save(table, t), t.id, user) == DeleteResult(table, 1)
  {
  }

  /** A second delete of the same id by the same user affects no row. */
  lemma DeleteTwiceAffectsNothing(table: Table, id: TaskId, user: User)
    requires WellKeyed(table)
    ensures DeleteBy(DeleteBy(table, id, user).table, id, user).affected == 0
  {
  }

  /** Setting a found task's status and saving it, then doing the same again
      with the same status, changes nothing the second time. */
  lemma StatusUpdateIdempotent(table: Table, id: TaskId, s: TaskStatus, user: User)
    requires WellKeyed(table) && FindOneBy(table, id, user).Some?
    ensures var once := FindOneBy(table, id, user).value.(status := s);
            var after := Save(table, once);
            FindOneBy(after, id, user) == Some(once) && Save(after, once) == after
  {
  }
}
