/** The add form: a valid submit adds one record and returns to the list. */
module AddEmployeePage {
  import opened Wrappers
  import opened EmployeeTypes
  import opened EmployeeSchema
  import opened Store

  /** Where the page goes after a successful submit. */
  const ListPath: string := "/employees"

  /**
   * A submit of the add form. The form validates first and calls the submit handler only
   * on data the schema accepts; the handler adds the record once (with the id `newId` the
   * store generates) and navigates to the list. Invalid data changes nothing.
   */
  method Submit(store: EmployeeStore, data: EmployeeFormData, isEmail: string -> bool, newId: string)
    returns (errors: seq<FieldError>, navigateTo: Option<string>)
    modifies store
    ensures errors == Validate(data, isEmail)
    ensures errors == [] ==>
      && store.employees == old(store.employees) + [NewEmployee(data, newId)]
      && store.Persisted()
      && navigateTo == Some(ListPath)
    ensures errors != [] ==>
      && store.employees == old(store.employees)
      && store.saved == old(store.saved)
      && navigateTo == None
  {
    errors := Validate(data, isEmail);
    if errors == [] {
      var _ := store.Add(data, newId);
      navigateTo := Some(ListPath);
    } else {
      navigateTo := None;
    }
  }
}
