# Employee record store — a Dafny model

This project models the logic of a client-side employee-management application:

- a store that holds an ordered list of employee records, starts from a saved copy or from a
  three-record seed, supports add, update, delete and lookup, and writes the whole list back
  to a storage slot after every change;
- the listing page's case-insensitive search, its exact department filter, its list of
  department options and its confirmed delete action;
- the dashboard's counts (total, distinct departments, hires of 2023);
- the employee card's initials and link paths;
- the field rules shared by the add and edit forms, and what a submit of each form does.

Modules, one per source file:

| file | module | source |
|---|---|---|
| `wrappers.dfy` | `Wrappers` | the absence signal (`undefined`/`null`) |
| `employee.dfy` | `EmployeeTypes` | `src/types/employee.ts` |
| `sequences.dfy` | `Sequences` | `Array.prototype.filter`, `Array.from(new Set(...))` |
| `store.dfy` | `Store` | `src/hooks/useEmployees.ts` |
| `listing.dfy` | `Listing` | `src/pages/Employees.tsx` |
| `dashboard.dfy` | `Dashboard` | `src/pages/Dashboard.tsx` |
| `card.dfy` | `Card` | `src/components/Employee/EmployeeCard.tsx` |
| `schema.dfy` | `EmployeeSchema` | the schema declared in both form pages |
| `add_page.dfy` | `AddEmployeePage` | `src/pages/AddEmployee.tsx` |
| `edit_page.dfy` | `EditEmployeePage` | `src/pages/EditEmployee.tsx` |
| `detail_page.dfy` | `EmployeeDetailPage` | `src/pages/EmployeeDetail.tsx` |

The store is a class, `Store.EmployeeStore`. It has a `seq<Employee>` field `employees` and a
field `saved` that stands for the storage slot. Its methods replace the list with the value
of a pure function (`Updated`, `Removed`, append) and then write it to `saved`. The pages'
filters and counts are pure functions. The submit flows are methods on the store. The two
things the browser supplies, the user's answer to the confirmation dialog and the
library's email format check, are parameters (`confirmed`, `isEmail`). The id that the code
makes from the clock is a parameter too (`newId`).

Three behaviours of the code that the model keeps as written:

- A slot holding malformed text makes the code's `JSON.parse` throw. It does not fall back
  to the seed. Malformed text is not modelled (see below).
- A slot holding `[]` is a saved, empty list. It is not "nothing saved", so an emptied store
  stays empty on reload and does not go back to the seed (`Store.SavedCollectionWins`).
- The id comes from `Date.now()`, which is not unique when two adds happen in the same
  millisecond. Id uniqueness is therefore proved only when the caller supplies a fresh id.

## Model

| member | source | states |
|---|---|---|
| `Store.Seed` | src/hooks/useEmployees.ts:5-33 | the three seed records, with ids "1", "2", "3", in that order |
| `Store.InitialEmployees` | src/hooks/useEmployees.ts:36-39 | the list the store starts with: the saved list when the slot holds one, otherwise the seed |
| `Store.SeedFallback` | src/hooks/useEmployees.ts:5-39 | with nothing saved, the store starts with the three seed records, ids "1", "2", "3" in that order, all distinct |
| `Store.SavedCollectionWins` | src/hooks/useEmployees.ts:36-39 | a saved list is used as it is, even an empty one, which does not bring the seed back |
| `Store.EmployeeStore.constructor` | src/hooks/useEmployees.ts:36-43 | the store starts with the saved list or the seed, and the persistence effect then writes it back to the slot |
| `Store.EmployeeStore.Commit` | src/hooks/useEmployees.ts:41-43 | after every change the slot holds exactly the current list |
| `Store.NewEmployee` | src/hooks/useEmployees.ts:46-49 | the added record carries the six submitted fields, the generated id, and no avatar |
| `Store.EmployeeStore.Add` | src/hooks/useEmployees.ts:45-52 | add appends exactly one record at the end, leaves the earlier ones unchanged, returns the record it added, mirrors the list to the slot, and keeps ids unique when the new id is fresh |
| `Store.AddThenFind` | src/hooks/useEmployees.ts:45-52 | after adding under a fresh id, looking that id up yields the added record |
| `Store.AddAllGrowsAndKeepsIdsUnique` | src/hooks/useEmployees.ts:45-52 | a run of n adds grows the list by n, and ids stay unique when the generated ids are fresh and differ from each other |
| `Store.Merge` | src/hooks/useEmployees.ts:57 | merging replaces the six form fields and keeps the id and the avatar |
| `Store.Updated` | src/hooks/useEmployees.ts:55-59 | update keeps the length, the order and every id; matching records get the six fields and keep their avatar; other records are unchanged |
| `Store.EmployeeStore.Update` | src/hooks/useEmployees.ts:54-60 | the store's list becomes the updated list and is mirrored to the slot; unique ids stay unique |
| `Store.UpdateThenFind` | src/hooks/useEmployees.ts:54-60 | after an update, looking the id up yields the previously found record merged with the data, or nothing if there was none |
| `Store.UpdateAbsentIsNoOp` | src/hooks/useEmployees.ts:56-58 | update with an id that no record has leaves the list unchanged |
| `Store.UpdatePreservesUniqueIds` | src/hooks/useEmployees.ts:55-59 | update keeps ids unique |
| `Store.Removed` | src/hooks/useEmployees.ts:63 | every copy of a record whose id differs survives delete and no copy of one with the id does (stated per value, with multiplicity); an absent id changes nothing |
| `Store.EmployeeStore.Delete` | src/hooks/useEmployees.ts:62-64 | the store's list becomes the filtered list and is mirrored to the slot; unique ids stay unique |
| `Store.RemovedKeepsUniqueIds` | src/hooks/useEmployees.ts:63 | delete keeps unique ids unique |
| `Store.DeleteThenFind` | src/hooks/useEmployees.ts:62-68 | after delete, looking the id up finds nothing |
| `Store.DeleteKeepsOrder` | src/hooks/useEmployees.ts:63 | the remaining records keep their relative order |
| `Store.DeleteCount` | src/hooks/useEmployees.ts:63 | with unique ids, delete shrinks the list by exactly one when the id is present and by nothing when it is absent, and ids stay unique |
| `Store.Find` | src/hooks/useEmployees.ts:67 | lookup yields nothing exactly when no record has the id; otherwise it yields a record with the id, with no such record before it |
| `Store.EmployeeStore.Get` | src/hooks/useEmployees.ts:66-68 | get returns the first record with the id, or nothing |
| `Sequences.Filter` | src/pages/Employees.tsx:13 | filtering never grows the list, keeps exactly the elements that satisfy the predicate, and returns the whole list when all of them do |
| `Sequences.FilterMultiset` | src/pages/Employees.tsx:13 | filtering keeps every copy of a value that satisfies the predicate and drops every copy of one that does not |
| `Sequences.FilterIsSubsequence` | src/pages/Employees.tsx:13 | a filtered list is a subsequence of its input |
| `Sequences.FilterIdempotent` | src/pages/Employees.tsx:13-21 | filtering twice with the same predicate equals filtering once |
| `Sequences.FilterPermutation` | src/pages/Dashboard.tsx:27 | what a filter keeps, counted with multiplicity, does not depend on the order of the input, so neither does its length |
| `Sequences.Distinct` | src/pages/Employees.tsx:11 | the de-duplicated list holds exactly the input's values, each once |
| `Sequences.DistinctFirstAppearance` | src/pages/Employees.tsx:11 | the de-duplicated list is in order of first appearance |
| `Sequences.DistinctLength` | src/pages/Dashboard.tsx:15 | the de-duplicated list is as long as the set of values is large |
| `Listing.Lower` | src/pages/Employees.tsx:14-16 | lower-casing keeps the length, turns ASCII capitals into small letters, and leaves every other character alone |
| `Listing.LowerIdempotent` | src/pages/Employees.tsx:14-16 | lower-casing twice equals lower-casing once |
| `Listing.Contains` | src/pages/Employees.tsx:14-16 | `includes` holds exactly when the term occurs at some position, so the empty term occurs everywhere |
| `Listing.MatchesSearch` | src/pages/Employees.tsx:14-16 | the lower-cased name, email or position contains the lower-cased term |
| `Listing.MatchesDepartment` | src/pages/Employees.tsx:18 | no department is selected, or the record's department equals the selection exactly |
| `Listing.FilteredEmployees` | src/pages/Employees.tsx:13-21 | a record is shown exactly when its lower-cased name, email or position contains the lower-cased term, and the selected department is empty or equals its department; every copy of a shown record is shown |
| `Listing.FilteredKeepsOrder` | src/pages/Employees.tsx:13 | the shown records are a subsequence of the list |
| `Listing.FilteredIdempotent` | src/pages/Employees.tsx:13-21 | filtering the shown records again with the same inputs changes nothing |
| `Listing.EmptyFiltersShowAll` | src/pages/Employees.tsx:14-18 | an empty term with no selected department shows the whole list |
| `Listing.SearchIgnoresCase` | src/pages/Employees.tsx:14-16 | a term and its lower-cased form match the same records |
| `Listing.DepartmentMatchIsCaseSensitive` | src/pages/Employees.tsx:14-18 | the search for "ENGINEER" matches John Doe, but selecting "engineering" does not match his department "Engineering" |
| `Listing.SearchJaneOnSeed` | src/pages/Employees.tsx:13-21 | searching the seed for "jane" shows exactly Jane Smith's record |
| `Listing.DepartmentOptions` | src/pages/Employees.tsx:11 | the records' departments, de-duplicated in order of first appearance |
| `Listing.DepartmentOptionsSpec` | src/pages/Employees.tsx:11 | every department in the list is offered exactly once, nothing else is offered, and the options follow the order of first appearance |
| `Listing.HandleDelete` | src/pages/Employees.tsx:23-27 | delete runs only when the user confirms; otherwise the list and the slot are unchanged |
| `Listing.ClickDelete` | src/components/Employee/EmployeeCard.tsx:10-12 | a card's Delete button deletes this card's id, and only after confirmation |
| `Dashboard.HiredIn2023` | src/pages/Dashboard.tsx:27 | the hire date starts with "2023": it has at least four characters and its first four are "2023" |
| `Dashboard.ComputeStats` | src/pages/Dashboard.tsx:9-27 | total is the list's length; the department count is at most the total and at least 1 for a non-empty list; new hires are at most the total |
| `Dashboard.DepartmentsStatMatchesOptions` | src/pages/Dashboard.tsx:15 | the department count equals the number of department options on the listing page |
| `Dashboard.StatsOnSeed` | src/pages/Dashboard.tsx:9-27 | on the seed the counts are 3 employees, 3 departments and 2 hires of 2023 |
| `Dashboard.StatsIgnoreOrder` | src/pages/Dashboard.tsx:9-27 | reordering the list changes none of the three counts |
| `Card.Split` | src/components/Employee/EmployeeCard.tsx:20 | splitting gives one piece more than there are separators, and no piece holds a separator |
| `Card.SplitJoin` | src/components/Employee/EmployeeCard.tsx:20 | joining the pieces with the separator gives the string back |
| `Card.Initials` | src/components/Employee/EmployeeCard.tsx:20 | the initials hold no space, and there are at most one more of them than spaces in the name |
| `Card.InitialsAreWordStarts` | src/components/Employee/EmployeeCard.tsx:20 | the initials are exactly the non-space characters at the start of the name or right after a space |
| `Card.ExtraSpacesIgnored` | src/components/Employee/EmployeeCard.tsx:20 | leading, trailing and doubled spaces leave no trace in the initials |
| `Card.SingleWordInitials` | src/components/Employee/EmployeeCard.tsx:20 | a non-empty name without spaces has its first character as its initials |
| `Card.JohnDoeInitials` | src/components/Employee/EmployeeCard.tsx:20 | "John Doe" gives "JD" |
| `Card.ViewPath` | src/components/Employee/EmployeeCard.tsx:34 | the view path is "/employees/" followed by the id, so the id can be read back from it |
| `Card.EditPath` | src/components/Employee/EmployeeCard.tsx:40 | the edit path is the view path followed by "/edit" |
| `Card.PathsIdentifyEmployee` | src/components/Employee/EmployeeCard.tsx:34-40 | different ids give different view paths and different edit paths |
| `EmployeeSchema.Accepts` | src/pages/AddEmployee.tsx:8-15 | the schema holds: name, position and department of at least 2 characters, an email the format check accepts, a non-empty hire date, a salary of at least 1 |
| `EmployeeSchema.Validate` | src/pages/AddEmployee.tsx:8-15 | each field error appears exactly when its rule is broken (name, position and department shorter than 2, bad email, empty hire date, salary below 1), and there are no errors exactly when the schema accepts the data |
| `EmployeeSchema.FractionalSalaryRejected` | src/pages/AddEmployee.tsx:14 | a salary strictly between 0 and 1, such as 0.5, is rejected although the message says "greater than 0" |
| `AddEmployeePage.Submit` | src/pages/AddEmployee.tsx:27-34 | valid data adds exactly one record built from it and goes to "/employees"; invalid data shows the errors and changes nothing |
| `EditEmployeePage.Lookup` | src/pages/EditEmployee.tsx:25 | a missing or empty route id, or an id that no record has, gives the not-found branch; otherwise the record found is the first in the list with the route's id (`Find`) |
| `EditEmployeePage.Prefill` | src/pages/EditEmployee.tsx:36-47 | the form is prefilled exactly when the record is found, with its six fields, so merging them back gives the record unchanged |
| `EditEmployeePage.UntouchedSubmitIsNoOp` | src/pages/EditEmployee.tsx:38-45 | with unique ids, submitting the prefilled form unchanged leaves the list as it was |
| `EditEmployeePage.Submit` | src/pages/EditEmployee.tsx:49-71 | not-found issues no update; invalid data is rejected with no update; valid data updates the record under its own id, goes to its detail path, and makes the id look up to the merged record |
| `EmployeeDetailPage.Delete` | src/pages/EmployeeDetail.tsx:9-28 | for a found record, a confirmed Delete removes it by its own id, mirrors the list to the slot, leaves no record with that id and goes to "/employees"; otherwise, including not-found, nothing changes and the page stays |
| `EditEmployeePage.Cancel` | src/pages/EditEmployee.tsx:196 | Cancel, offered only for a found record, goes to that record's detail path and updates nothing |

The edit page declares the same schema (src/pages/EditEmployee.tsx:9-16) as the add page.
Both pages use the single definition `EmployeeSchema.Validate`.

## Left out

- Reading and writing browser storage, and JSON. The slot is the field `saved`, holding
  either nothing or a list of records; the serialization round trip is taken to be
  lossless. Malformed saved text, on which `JSON.parse` throws with no fallback, is not
  modelled.
- `Date.now()`: the new id is the parameter `newId` of `Add`.
- React hook mechanics. Every page calls the hook and so gets its own copy of the state,
  loaded from storage when the page mounts. The model has one store and runs every
  operation in sequence. `getEmployee` reads the render's snapshot; the model reads the
  current list.
- The average salary on the dashboard (src/pages/Dashboard.tsx:21): floating-point
  division, `Math.round`, `toLocaleString`, and NaN on an empty list.
- Dates: the years-with-company figure, and date and number formatting on the detail page
  and on the card.
- `EmployeeSchema.Validate`: the email format check belongs to the validation library and
  is the parameter `isEmail`. Salary is a Dafny `real`, so NaN, infinities and
  floating-point rounding of JavaScript numbers are not modelled. String lengths count
  characters, not UTF-16 code units as JavaScript does.
- Strings throughout the model are sequences of Unicode characters, whereas JavaScript
  strings are sequences of UTF-16 code units. Lengths, indexing and `split` agree for text
  without characters outside the Basic Multilingual Plane; for such characters they differ.
- `Card.Initials`: takes the first character of each word, while `n[0]` takes the first
  UTF-16 code unit. For a word that starts with a character outside the Basic Multilingual
  Plane (an emoji, say) the source yields a lone surrogate and the model the whole character.
- `Listing.Lower`: lower-cases ASCII letters only. JavaScript's `toLowerCase` follows the
  full Unicode case mapping.
- The confirmation dialog: the user's answer is the parameter `confirmed`.
- Navigation: a submit returns the path the page would go to, and the router is not
  modelled. Routing, layout, the sidebar's active-link test, and all rendering and styling
  are left out.
- The rest of the detail page (src/pages/EmployeeDetail.tsx): its initials use the same
  expression as the card's (`Card.Initials`), and what remains besides the lookup and the
  Delete button (`EmployeeDetailPage.Delete`) is date arithmetic and rendering.
- The `try`/`catch` around the submit handlers: `addEmployee` and `updateEmployee` never
  throw, so the catch branch cannot run.
