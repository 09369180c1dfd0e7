/**
 * The edit form: it looks the record up by the route's id, shows "not found" when there
 * is none, prefills the form with the record's fields, and on a valid submit updates the
 * record under its own id and goes to its detail page.
 */
module EditEmployeePage {
  import opened Wrappers
  import opened EmployeeTypes
  import opened EmployeeSchema
  import opened Store
  import opened Card

  /**
   * `id ? getEmployee(id) : null`: the record the page edits. A missing or empty route id
   * (both falsy) and an id no record has give nothing.
   */
  function Lookup(employees: seq<Employee>, routeId: Option<string>): (r: Option<Employee>)
    ensures r.Some? ==> routeId == Some(r.value.id) && r.value in employees
    ensures r.None? <==> (routeId == None || routeId == Some("") || IsFreshId(employees, routeId.value))
    ensures routeId.Some? && routeId.value != "" ==> r == Find(employees, routeId.value)
  {
    match routeId
    case None => None
    case Some(id) =>
      if id == "" then None
      else
        var r := Find(employees, id);
        assert r.Some? ==> r.value in employees by {
          if r.Some? {
            var i :| 0 <= i < |employees| && employees[i] == r.value && r.value.id == id &&
              IsFreshId(employees[..i], id);
          }
        }
        r
  }

  /** The values the form is reset to once the record is found: its six form fields. */
  function Prefill(employees: seq<Employee>, routeId: Option<string>): (values: Option<EmployeeFormData>)
    ensures values.Some? <==> Lookup(employees, routeId).Some?
    ensures values.Some? ==> Merge(Lookup(employees, routeId).value, values.value) == Lookup(employees, routeId).value
  {
    match Lookup(employees, routeId)
    case None => None
    case Some(e) => Some(FormFields(e))
  }

  /** Submitting the prefilled form unchanged leaves a collection with unique ids as it was. */
  lemma UntouchedSubmitIsNoOp(xs: seq<Employee>, routeId: Option<string>)
    requires UniqueIds(xs) && Lookup(xs, routeId).Some?
    ensures Updated(xs, Lookup(xs, routeId).value.id, Prefill(xs, routeId).value) == xs
  {
    var e := Lookup(xs, routeId).value;
    var k :| 0 <= k < |xs| && xs[k] == e;
    var ys := Updated(xs, e.id, FormFields(e));
    forall i | 0 <= i < |xs| ensures ys[i] == xs[i] {
      if xs[i].id == e.id {
        assert i == k;
        assert ys[i] == Merge(xs[i], FormFields(xs[i]));
      }
    }
  }

  /** What a submit of the edit page leads to. */
  datatype EditOutcome =
    | NotFound                          // the page shows "Employee Not Found" and has no form
    | Rejected(errors: seq<FieldError>) // the form shows the errors; nothing is updated
    | Saved(navigateTo: string)         // the record was updated; the page goes to its detail path

  /**
   * A submit of the edit page. Only a found record has a form; the form validates first,
   * then the handler updates the record under its own id and navigates to its detail page.
   */
  method Submit(store: EmployeeStore, routeId: Option<string>, data: EmployeeFormData, isEmail: string -> bool)
    returns (outcome: EditOutcome)
    modifies store
    ensures var found := Lookup(old(store.employees), routeId);
      && (found.None? ==> outcome == NotFound)
      && (found.Some? && !Accepts(data, isEmail) ==> outcome == Rejected(Validate(data, isEmail)))
      && (found.Some? && Accepts(data, isEmail) ==>
            && outcome == Saved(ViewPath(found.value.id))
            && store.employees == Updated(old(store.employees), found.value.id, data)
            && store.Persisted()
            && Find(store.employees, found.value.id) == Some(Merge(found.value, data)))
    ensures !outcome.Saved? ==> store.employees == old(store.employees) && store.saved == old(store.saved)
  {
    var found := Lookup(store.employees, routeId);
    if found.None? {
      return NotFound;
    }
    var errors := Validate(data, isEmail);
    if errors != [] {
      return Rejected(errors);
    }
    var e := found.value;
    UpdateThenFind(store.employees, e.id, data);
    store.Update(e.id, data);
    outcome := Saved(ViewPath(e.id));
  }

  /** The Cancel button of a found record's form: back to its detail page, with no update. */
  method Cancel(store: EmployeeStore, routeId: Option<string>) returns (navigateTo: Option<string>)
    ensures navigateTo.Some? <==> Lookup(store.employees, routeId).Some?
    ensures navigateTo.Some? ==> navigateTo.value == ViewPath(routeId.value)
  {
    var found := Lookup(store.employees, routeId);
    if found.Some? {
      navigateTo := Some(ViewPath(found.value.id));
    } else {
      navigateTo := None;
    }
  }
}
