/** The record types shared by the store and the pages. */
module EmployeeTypes {
  import opened Wrappers

  /** One staff record. `avatar` is optional and nothing reads it. */
  datatype Employee = Employee(
    id: string,
    name: string,
    email: string,
    position: string,
    department: string,
    hireDate: string,
    salary: real,
    avatar: Option<string>)

  /** The six fields a form submits: every field of a record except `id` and `avatar`. */
  datatype EmployeeFormData = EmployeeFormData(
    name: string,
    email: string,
    position: string,
    department: string,
    hireDate: string,
    salary: real)

  /** The six form fields of a record, as the edit form is prefilled with them. */
  function FormFields(e: Employee): EmployeeFormData {
    EmployeeFormData(e.name, e.email, e.position, e.department, e.hireDate, e.salary)
  }
}
