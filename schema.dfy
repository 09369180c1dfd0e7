/**
 * The field rules of the add and edit forms (the two pages declare the same schema).
 * The email format check belongs to the validation library and is a parameter here.
 */
module EmployeeSchema {
  import opened EmployeeTypes
  import opened Sequences

  /** The rule a submitted form breaks, one per field. */
  datatype FieldError =
    | NameTooShort
    | InvalidEmail
    | PositionTooShort
    | DepartmentTooShort
    | HireDateRequired
    | SalaryTooLow

  /**
   * The schema: name, position and department of at least 2 characters, an email the
   * format check accepts, a non-empty hire date and a salary of at least 1.
   */
  predicate Accepts(d: EmployeeFormData, isEmail: string -> bool) {
    && |d.name| >= 2
    && isEmail(d.email)
    && |d.position| >= 2
    && |d.department| >= 2
    && |d.hireDate| >= 1
    && d.salary >= 1.0
  }

  /** The rules in the order of the form's fields. */
  const AllRules: seq<FieldError> :=
    [NameTooShort, InvalidEmail, PositionTooShort, DepartmentTooShort, HireDateRequired, SalaryTooLow]

  /** The data breaks the rule `rule`. */
  predicate Breaks(d: EmployeeFormData, isEmail: string -> bool, rule: FieldError) {
    match rule
    case NameTooShort => |d.name| < 2
    case InvalidEmail => !isEmail(d.email)
    case PositionTooShort => |d.position| < 2
    case DepartmentTooShort => |d.department| < 2
    case HireDateRequired => d.hireDate == ""
    case SalaryTooLow => d.salary < 1.0
  }

  /** The errors the form shows, in field order: one for each rule the data breaks. */
  function Validate(d: EmployeeFormData, isEmail: string -> bool): (errors: seq<FieldError>)
    ensures NameTooShort in errors <==> |d.name| < 2
    ensures InvalidEmail in errors <==> !isEmail(d.email)
    ensures PositionTooShort in errors <==> |d.position| < 2
    ensures DepartmentTooShort in errors <==> |d.department| < 2
    ensures HireDateRequired in errors <==> d.hireDate == ""
    ensures SalaryTooLow in errors <==> d.salary < 1.0
    ensures errors == [] <==> Accepts(d, isEmail)
    ensures |errors| <= 6
  {
    var errors := Filter(AllRules, (rule: FieldError) => Breaks(d, isEmail, rule));
    assert errors == [] ==> Accepts(d, isEmail) by {
      if errors == [] {
        forall rule | rule in AllRules ensures !Breaks(d, isEmail, rule) {
          assert rule !in errors;
        }
      }
    }
    errors
  }

  /** A salary strictly between 0 and 1, such as 0.5, is rejected although it is greater than 0. */
  lemma FractionalSalaryRejected(d: EmployeeFormData, isEmail: string -> bool)
    requires 0.0 < d.salary < 1.0
    ensures SalaryTooLow in Validate(d, isEmail)
    ensures !Accepts(d, isEmail)
  {
  }
}
