/**
 * The dashboard's summary counts over the collection: total employees, distinct
 * departments, and new hires of 2023.
 */
module Dashboard {
  import opened EmployeeTypes
  import opened Sequences
  import opened Store
  import opened Listing

  /** `hireDate.startsWith('2023')`: the hire date string begins with the year 2023. */
  function HiredIn2023(e: Employee): (b: bool)
    ensures b <==> |e.hireDate| >= 4 && e.hireDate[..4] == "2023"
  {
    "2023" <= e.hireDate
  }

  /** The three counts the dashboard shows (the average salary is not part of this model). */
  datatype Stats = Stats(total: nat, departments: nat, newHires: nat)

  /**
   * The counts of a collection: its length, the number of distinct department strings
   * (`new Set(departments).size`), and the number of records hired in 2023.
   */
  function ComputeStats(xs: seq<Employee>): (s: Stats)
    ensures s.total == |xs|
    ensures s.departments <= s.total
    ensures xs != [] ==> s.departments >= 1
    ensures s.newHires <= s.total
  {
    DistinctLength(Departments(xs));
    assert xs != [] ==> xs[0].department in Elements(Departments(xs)) by {
      if xs != [] {
        assert Departments(xs)[0] == xs[0].department;
      }
    }
    Stats(|xs|, |Elements(Departments(xs))|, |Filter(xs, HiredIn2023)|)
  }

  /** The departments count is the number of options the listing page offers in its selector. */
  lemma DepartmentsStatMatchesOptions(xs: seq<Employee>)
    ensures ComputeStats(xs).departments == |DepartmentOptions(xs)|
  {
    DistinctLength(Departments(xs));
  }

  /** On the seed the dashboard shows 3 employees, 3 departments and 2 new hires. */
  lemma StatsOnSeed()
    ensures ComputeStats(Seed()) == Stats(3, 3, 2)
  {
    var s := Seed();
    var ds := Departments(s);
    assert ds == ["Engineering", "Product", "Design"];
    assert NoDuplicates(ds);
    NoDuplicatesCardinality(ds);
    assert !HiredIn2023(s[1]) by {
      assert s[1].hireDate[3] != "2023"[3];
    }
    assert HiredIn2023(s[0]) && HiredIn2023(s[2]);
    assert s == [s[0], s[1], s[2]];
    KeepOuter(s[0], s[1], s[2], HiredIn2023);
  }

  /** The counts do not depend on the order of the collection. */
  lemma StatsIgnoreOrder(xs: seq<Employee>, ys: seq<Employee>)
    requires multiset(xs) == multiset(ys)
    ensures ComputeStats(xs) == ComputeStats(ys)
  {
    assert |xs| == |multiset(xs)| == |multiset(ys)| == |ys|;
    FilterPermutation(xs, ys, HiredIn2023);
    assert Elements(Departments(xs)) == Elements(Departments(ys)) by {
      forall d | d in Elements(Departments(xs)) ensures d in Elements(Departments(ys)) {
        var i :| 0 <= i < |xs| && Departments(xs)[i] == d;
        assert xs[i] in multiset(ys);
        var j :| 0 <= j < |ys| && ys[j] == xs[i];
        assert Departments(ys)[j] == d;
      }
      forall d | d in Elements(Departments(ys)) ensures d in Elements(Departments(xs)) {
        var j :| 0 <= j < |ys| && Departments(ys)[j] == d;
        assert ys[j] in multiset(xs);
        var i :| 0 <= i < |xs| && xs[i] == ys[j];
        assert Departments(xs)[i] == d;
      }
    }
  }
}
