/**
 * The detail page: it looks the record up by the route's id as the edit page does, shows
 * "not found" when there is none, and its Delete button removes the record after
 * confirmation and returns to the list.
 */
module EmployeeDetailPage {
  import opened Wrappers
  import opened Store
  import opened AddEmployeePage
  import opened EditEmployeePage

  /**
   * The Delete button of a found record. Only a confirmed click deletes the record, by its
   * own id, and goes to the list; otherwise nothing changes and the page stays.
   */
  method Delete(store: EmployeeStore, routeId: Option<string>, confirmed: bool)
    returns (navigateTo: Option<string>)
    modifies store
    ensures var found := Lookup(old(store.employees), routeId);
      && (found.Some? && confirmed ==>
            && store.employees == Removed(old(store.employees), found.value.id)
            && store.Persisted()
            && Find(store.employees, found.value.id) == None
            && navigateTo == Some(ListPath))
      && (!(found.Some? && confirmed) ==>
            && store.employees == old(store.employees)
            && store.saved == old(store.saved)
            && navigateTo == None)
  {
    var found := Lookup(store.employees, routeId);
    if found.Some? && confirmed {
      DeleteThenFind(store.employees, found.value.id);
      store.Delete(found.value.id);
      navigateTo := Some(ListPath);
    } else {
      navigateTo := None;
    }
  }
}
