/**
 * The employee listing page: the search and department filter over the collection,
 * the list of department options, and the confirmed delete action of each card.
 */
module Listing {
  import opened EmployeeTypes
  import opened Sequences
  import opened Store

  /** `toLowerCase` on one character, for the ASCII letters. */
  function LowerChar(c: char): char {
    if 'A' <= c <= 'Z' then (c as int + 32) as char else c
  }

  /** `toLowerCase`: ASCII capitals become small letters, every other character stays. */
  function Lower(s: string): (r: string)
    ensures |r| == |s|
    ensures forall i :: 0 <= i < |s| && 'A' <= s[i] <= 'Z' ==> r[i] as int == s[i] as int + 32
    ensures forall i :: 0 <= i < |s| && !('A' <= s[i] <= 'Z') ==> r[i] == s[i]
    ensures forall i :: 0 <= i < |r| ==> !('A' <= r[i] <= 'Z')
  {
    seq(|s|, i requires 0 <= i < |s| => LowerChar(s[i]))
  }

  /** Lower-casing twice is lower-casing once. */
  lemma LowerIdempotent(s: string)
    ensures Lower(Lower(s)) == Lower(s)
  {
  }

  /** `t` occurs in `s` starting at position `i`. */
  predicate OccursAt(s: string, t: string, i: int) {
    0 <= i <= |s| - |t| && s[i..i + |t|] == t
  }

  /** Dropping the first character of `s` shifts every occurrence one position to the left. */
  lemma ShiftOccurrence(s: string, t: string, i: int)
    requires s != [] && 0 <= i
    ensures OccursAt(s[1..], t, i) <==> OccursAt(s, t, i + 1)
  {
    if 0 <= i <= |s| - 1 - |t| {
      assert s[1..][i..i + |t|] == s[i + 1..i + 1 + |t|];
    }
  }

  /** `s.includes(t)`: `t` occurs somewhere in `s`; the empty string occurs everywhere. */
  function Contains(s: string, t: string): (b: bool)
    ensures b <==> exists i :: OccursAt(s, t, i)
  {
    if t <= s then
      assert OccursAt(s, t, 0);
      true
    else if s == [] then false
    else
      var b := Contains(s[1..], t);
      assert b <==> exists i :: OccursAt(s, t, i) by {
        if b {
          var i :| OccursAt(s[1..], t, i);
          ShiftOccurrence(s, t, i);
        }
        if exists i :: OccursAt(s, t, i) {
          var i :| OccursAt(s, t, i);
          if i > 0 {
            ShiftOccurrence(s, t, i - 1);
          }
        }
      }
      b
  }

  /** `t` does not occur in `s` when its first two characters never stand side by side in `s`. */
  lemma NotContained(s: string, t: string)
    requires |t| >= 2
    requires forall i :: 0 <= i < |s| - 1 ==> !(s[i] == t[0] && s[i + 1] == t[1])
    ensures !Contains(s, t)
  {
    forall i ensures !OccursAt(s, t, i) {
      if 0 <= i <= |s| - |t| {
        assert s[i..i + |t|][0] == s[i] && s[i..i + |t|][1] == s[i + 1];
      }
    }
  }

  /** The search box matches a record when its term occurs in the name, email or position, ignoring case. */
  predicate MatchesSearch(e: Employee, term: string) {
    Contains(Lower(e.name), Lower(term)) ||
    Contains(Lower(e.email), Lower(term)) ||
    Contains(Lower(e.position), Lower(term))
  }

  /** The department selector matches a record when nothing is selected or the department is exactly the selection. */
  predicate MatchesDepartment(e: Employee, department: string) {
    department == "" || e.department == department
  }

  /** The records the page shows for a search term and a selected department. */
  function FilteredEmployees(xs: seq<Employee>, term: string, department: string): (r: seq<Employee>)
    ensures forall e :: e in r <==> e in xs && MatchesSearch(e, term) && MatchesDepartment(e, department)
    ensures forall e ::
      multiset(r)[e] == (if MatchesSearch(e, term) && MatchesDepartment(e, department) then multiset(xs)[e] else 0)
  {
    FilterMultiset(xs, (e: Employee) => MatchesSearch(e, term) && MatchesDepartment(e, department));
    Filter(xs, (e: Employee) => MatchesSearch(e, term) && MatchesDepartment(e, department))
  }

  /** The shown records keep the order of the collection. */
  lemma FilteredKeepsOrder(xs: seq<Employee>, term: string, department: string)
    ensures IsSubsequence(FilteredEmployees(xs, term, department), xs)
  {
    FilterIsSubsequence(xs, (e: Employee) => MatchesSearch(e, term) && MatchesDepartment(e, department));
  }

  /** Filtering the shown records again with the same inputs changes nothing. */
  lemma FilteredIdempotent(xs: seq<Employee>, term: string, department: string)
    ensures FilteredEmployees(FilteredEmployees(xs, term, department), term, department) ==
      FilteredEmployees(xs, term, department)
  {
    FilterIdempotent(xs, (e: Employee) => MatchesSearch(e, term) && MatchesDepartment(e, department));
  }

  /** With an empty search term and no department selected, the page shows the whole collection. */
  lemma EmptyFiltersShowAll(xs: seq<Employee>)
    ensures FilteredEmployees(xs, "", "") == xs
  {
    forall i | 0 <= i < |xs| ensures MatchesSearch(xs[i], "") {
      assert OccursAt(Lower(xs[i].name), Lower(""), 0);
    }
  }

  /** The search ignores the case of the term: a term and its lower-cased form match the same records. */
  lemma SearchIgnoresCase(e: Employee, term: string)
    ensures MatchesSearch(e, term) == MatchesSearch(e, Lower(term))
  {
    LowerIdempotent(term);
  }

  /** "ENGINEER" occurs, ignoring case, in the position "Software Engineer". */
  lemma EngineerInPosition()
    ensures Contains(Lower("Software Engineer"), Lower("ENGINEER"))
  {
    var pos := Lower("Software Engineer");
    assert Lower("ENGINEER") == "engineer";
    assert pos[9..17] == "engineer";
    assert OccursAt(pos, "engineer", 9);
  }

  /** "Engineering" and "engineering" differ only in case. */
  lemma EngineeringIgnoringCase()
    ensures Lower("Engineering") == Lower("engineering")
  {
    assert Lower("Engineering") == "engineering";
  }

  /**
   * The search ignores case but the department does not: "ENGINEER" finds John Doe by his
   * position, while selecting "engineering" does not match his department "Engineering".
   */
  lemma DepartmentMatchIsCaseSensitive()
    ensures MatchesSearch(Seed()[0], "ENGINEER")
    ensures !MatchesDepartment(Seed()[0], "engineering")
    ensures Lower(Seed()[0].department) == Lower("engineering")
  {
    EngineerInPosition();
    EngineeringIgnoringCase();
  }

  /** The capital of a small ASCII letter. */
  function UpperChar(c: char): char
    requires 'a' <= c <= 'z'
  {
    (c as int - 32) as char
  }

  /**
   * A search term starting with two small letters does not occur, ignoring case, in a
   * field where those two letters, in either case, never stand next to each other.
   */
  lemma NotContainedIgnoringCase(s: string, t: string)
    requires |t| >= 2 && 'a' <= t[0] <= 'z' && 'a' <= t[1] <= 'z'
    requires forall i :: 0 <= i < |s| - 1 ==>
      !((s[i] == t[0] || s[i] == UpperChar(t[0])) && (s[i + 1] == t[1] || s[i + 1] == UpperChar(t[1])))
    ensures !Contains(Lower(s), Lower(t))
  {
    var u, v := Lower(s), Lower(t);
    assert v[0] == t[0] && v[1] == t[1];
    forall i | 0 <= i < |u| - 1 ensures !(u[i] == v[0] && u[i + 1] == v[1]) {
      assert u[i] == LowerChar(s[i]) && u[i + 1] == LowerChar(s[i + 1]);
    }
    NotContained(u, v);
  }

  /** No searched field of John Doe contains "jane", in any case. */
  lemma JohnDoesNotMatchJane()
    ensures !MatchesSearch(Seed()[0], "jane")
  {
    NotContainedIgnoringCase("John Doe", "jane");
    NotContainedIgnoringCase("john.doe@company.com", "jane");
    NotContainedIgnoringCase("Software Engineer", "jane");
  }

  /** No searched field of Mike Johnson contains "jane", in any case. */
  lemma MikeDoesNotMatchJane()
    ensures !MatchesSearch(Seed()[2], "jane")
  {
    NotContainedIgnoringCase("Mike Johnson", "jane");
    NotContainedIgnoringCase("mike.johnson@company.com", "jane");
    NotContainedIgnoringCase("UX Designer", "jane");
  }

  /** Jane Smith matches the search "jane" by her name. */
  lemma JaneMatchesJane()
    ensures MatchesSearch(Seed()[1], "jane")
  {
    assert Lower("jane") == "jane";
    assert Lower("Jane Smith")[..4] == "jane";
    assert OccursAt(Lower("Jane Smith"), "jane", 0);
  }

  /** Searching the seed for "jane" shows exactly the record of Jane Smith. */
  lemma SearchJaneOnSeed()
    ensures FilteredEmployees(Seed(), "jane", "") == [Seed()[1]]
  {
    var s := Seed();
    JaneMatchesJane();
    JohnDoesNotMatchJane();
    MikeDoesNotMatchJane();
    var p := (e: Employee) => MatchesSearch(e, "jane") && MatchesDepartment(e, "");
    assert s == [s[0], s[1], s[2]];
    KeepMiddle(s[0], s[1], s[2], p);
  }

  /** The department of every record, in collection order. */
  function Departments(xs: seq<Employee>): (r: seq<string>)
    ensures |r| == |xs| && forall i :: 0 <= i < |xs| ==> r[i] == xs[i].department
  {
    seq(|xs|, i requires 0 <= i < |xs| => xs[i].department)
  }

  /** The options of the department selector: `Array.from(new Set(departments))`. */
  function DepartmentOptions(xs: seq<Employee>): seq<string> {
    Distinct(Departments(xs))
  }

  /**
   * Every department of the collection is offered exactly once, nothing else is offered,
   * and the options come in order of first appearance in the collection.
   */
  lemma DepartmentOptionsSpec(xs: seq<Employee>)
    ensures forall d :: d in DepartmentOptions(xs) <==> exists e :: e in xs && e.department == d
    ensures NoDuplicates(DepartmentOptions(xs))
    ensures forall i, j :: 0 <= i < j < |DepartmentOptions(xs)| ==>
      FirstIndex(Departments(xs), DepartmentOptions(xs)[i]) <
      FirstIndex(Departments(xs), DepartmentOptions(xs)[j])
  {
    DistinctFirstAppearance(Departments(xs));
    var ds := Departments(xs);
    forall d ensures d in ds <==> exists e :: e in xs && e.department == d {
      if d in ds {
        var i :| 0 <= i < |ds| && ds[i] == d;
        assert xs[i] in xs;
      }
    }
  }

  /** The delete handler of the page: it deletes only after the user confirms. */
  method HandleDelete(store: EmployeeStore, id: string, confirmed: bool)
    modifies store
    ensures confirmed ==> store.employees == Removed(old(store.employees), id) && store.Persisted()
    ensures !confirmed ==> store.employees == old(store.employees) && store.saved == old(store.saved)
  {
    if confirmed {
      store.Delete(id);
    }
  }

  /** The Delete button of a card: it hands the card's own id to the page's handler. */
  method ClickDelete(store: EmployeeStore, card: Employee, confirmed: bool)
    modifies store
    ensures confirmed ==> store.employees == Removed(old(store.employees), card.id) && store.Persisted()
    ensures !confirmed ==> store.employees == old(store.employees) && store.saved == old(store.saved)
  {
    HandleDelete(store, card.id, confirmed);
  }
}
