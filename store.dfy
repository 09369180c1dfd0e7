/**
 * The employee record store (`useEmployees`): an ordered collection held in memory,
 * initialised from the storage slot `employees` or from a three-record seed, changed
 * by add, update and delete, and written back whole to the slot after every change.
 */
module Store {
  import opened Wrappers
  import opened EmployeeTypes
  import opened Sequences

  /**
   * The storage slot `employees`. `Empty` is a slot whose value is absent or the empty
   * string, the two values the store treats as "nothing saved"; `Holding(records)` is a
   * slot holding the serialized collection `records` (the text `[]` included, which is
   * not empty text and so counts as saved).
   */
  datatype Slot = Empty | Holding(records: seq<Employee>)

  /** The three records the store starts from when nothing is saved. */
  function Seed(): seq<Employee> {
    [ Employee("1", "John Doe", "john.doe@company.com", "Software Engineer", "Engineering",
               "2023-01-15", 75000.0, None),
      Employee("2", "Jane Smith", "jane.smith@company.com", "Product Manager", "Product",
               "2022-11-20", 85000.0, None),
      Employee("3", "Mike Johnson", "mike.johnson@company.com", "UX Designer", "Design",
               "2023-03-10", 70000.0, None) ]
  }

  /** The collection the store starts with: the saved one if there is one, else the seed. */
  function InitialEmployees(slot: Slot): seq<Employee> {
    match slot
    case Empty => Seed()
    case Holding(records) => records
  }

  /** The ids of the records, in collection order. */
  function Ids(xs: seq<Employee>): (r: seq<string>)
    ensures |r| == |xs| && forall i :: 0 <= i < |xs| ==> r[i] == xs[i].id
  {
    seq(|xs|, i requires 0 <= i < |xs| => xs[i].id)
  }

  /** No two records share an id. */
  predicate UniqueIds(xs: seq<Employee>) {
    forall i, j :: 0 <= i < j < |xs| ==> xs[i].id != xs[j].id
  }

  /** No record has the id `id`. */
  predicate IsFreshId(xs: seq<Employee>, id: string) {
    forall i :: 0 <= i < |xs| ==> xs[i].id != id
  }

  /** With nothing saved, the store starts from the seed: ids "1", "2", "3" in that order. */
  lemma SeedFallback()
    ensures |InitialEmployees(Empty)| == 3
    ensures Ids(InitialEmployees(Empty)) == ["1", "2", "3"]
    ensures UniqueIds(InitialEmployees(Empty))
  {
    assert Ids(Seed()) == ["1", "2", "3"];
  }

  /** A saved collection, even an empty one, is used as it is and the seed is not consulted. */
  lemma SavedCollectionWins(records: seq<Employee>)
    ensures InitialEmployees(Holding(records)) == records
    ensures records == [] ==> InitialEmployees(Holding(records)) != Seed()
  {
  }

  /** The record `add` builds: the submitted fields with the generated id and no avatar. */
  function NewEmployee(data: EmployeeFormData, id: string): (e: Employee)
    ensures FormFields(e) == data && e.id == id && e.avatar == None
  {
    Employee(id, data.name, data.email, data.position, data.department, data.hireDate,
             data.salary, None)
  }

  /** `{ ...emp, ...data }`: the record with its six form fields replaced by `data`. */
  function Merge(e: Employee, data: EmployeeFormData): (r: Employee)
    ensures FormFields(r) == data && r.id == e.id && r.avatar == e.avatar
  {
    e.(name := data.name, email := data.email, position := data.position,
       department := data.department, hireDate := data.hireDate, salary := data.salary)
  }

  /** The collection after `update(id, data)`: every record with the id is merged with `data`. */
  function Updated(xs: seq<Employee>, id: string, data: EmployeeFormData): (r: seq<Employee>)
    ensures |r| == |xs| && Ids(r) == Ids(xs)
    ensures forall i :: 0 <= i < |xs| && xs[i].id == id ==>
      FormFields(r[i]) == data && r[i].avatar == xs[i].avatar
    ensures forall i :: 0 <= i < |xs| && xs[i].id != id ==> r[i] == xs[i]
  {
    seq(|xs|, i requires 0 <= i < |xs| => if xs[i].id == id then Merge(xs[i], data) else xs[i])
  }

  /** The collection after `delete(id)`: every record with the id is dropped. */
  function Removed(xs: seq<Employee>, id: string): (r: seq<Employee>)
    ensures forall e :: e in r <==> e in xs && e.id != id
    ensures forall e :: multiset(r)[e] == if e.id != id then multiset(xs)[e] else 0
    ensures IsFreshId(xs, id) ==> r == xs
  {
    FilterMultiset(xs, (e: Employee) => e.id != id);
    Filter(xs, (e: Employee) => e.id != id)
  }

  /** `find`: the first record with the id, or `None` when no record has it. */
  function Find(xs: seq<Employee>, id: string): (r: Option<Employee>)
    ensures r.None? <==> IsFreshId(xs, id)
    ensures r.Some? ==>
      exists i :: (0 <= i < |xs| && xs[i] == r.value && r.value.id == id && IsFreshId(xs[..i], id))
  {
    if xs == [] then None
    else if xs[0].id == id then
      assert IsFreshId(xs[..0], id);
      Some(xs[0])
    else
      var r := Find(xs[1..], id);
      assert r.Some? ==>
        exists i :: (0 <= i < |xs| && xs[i] == r.value && r.value.id == id && IsFreshId(xs[..i], id)) by {
        if r.Some? {
          var i :| 0 <= i < |xs[1..]| && xs[1..][i] == r.value && r.value.id == id &&
            IsFreshId(xs[1..][..i], id);
          assert xs[..i + 1] == [xs[0]] + xs[1..][..i];
        }
      }
      r
  }

  /** After adding a record under a fresh id, looking that id up yields the added record. */
  lemma AddThenFind(xs: seq<Employee>, data: EmployeeFormData, id: string)
    requires IsFreshId(xs, id)
    ensures Find(xs + [NewEmployee(data, id)], id) == Some(NewEmployee(data, id))
  {
    var ys := xs + [NewEmployee(data, id)];
    assert ys[|xs|].id == id;
    var i :| 0 <= i < |ys| && ys[i] == Find(ys, id).value && ys[i].id == id && IsFreshId(ys[..i], id);
    if i < |xs| {
      assert xs[i].id == id;
    }
  }

  /** The collection after adding each `(data, newId)` of `batch` in turn. */
  function AddAll(xs: seq<Employee>, batch: seq<(EmployeeFormData, string)>): seq<Employee>
    decreases |batch|
  {
    if batch == [] then xs
    else AddAll(xs + [NewEmployee(batch[0].0, batch[0].1)], batch[1..])
  }

  /** The ids of `batch` differ from each other and from every id in `xs`. */
  predicate FreshBatch(xs: seq<Employee>, batch: seq<(EmployeeFormData, string)>) {
    && (forall k :: 0 <= k < |batch| ==> IsFreshId(xs, batch[k].1))
    && (forall k, l :: 0 <= k < l < |batch| ==> batch[k].1 != batch[l].1)
  }

  /**
   * A run of adds grows the collection by one record per add, and keeps ids unique when
   * the generated ids differ from each other and from the ids already present.
   */
  lemma {:induction false} AddAllGrowsAndKeepsIdsUnique(xs: seq<Employee>, batch: seq<(EmployeeFormData, string)>)
    ensures |AddAll(xs, batch)| == |xs| + |batch|
    ensures UniqueIds(xs) && FreshBatch(xs, batch) ==> UniqueIds(AddAll(xs, batch))
    decreases |batch|
  {
    if batch != [] {
      var ys := xs + [NewEmployee(batch[0].0, batch[0].1)];
      var rest := batch[1..];
      AddAllGrowsAndKeepsIdsUnique(ys, rest);
      if UniqueIds(xs) && FreshBatch(xs, batch) {
        assert IsFreshId(xs, batch[0].1);
        assert UniqueIds(ys);
        forall k | 0 <= k < |rest| ensures IsFreshId(ys, rest[k].1) {
          assert rest[k] == batch[k + 1];
          assert IsFreshId(xs, batch[k + 1].1);
        }
        forall k, l | 0 <= k < l < |rest| ensures rest[k].1 != rest[l].1 {
          assert rest[k] == batch[k + 1] && rest[l] == batch[l + 1];
        }
      }
    }
  }

  /**
   * After `update(id, data)`, looking the id up yields the record it found before, merged
   * with `data`, and nothing when there was none.
   */
  lemma {:induction false} UpdateThenFind(xs: seq<Employee>, id: string, data: EmployeeFormData)
    ensures Find(xs, id).None? ==> Find(Updated(xs, id, data), id).None?
    ensures Find(xs, id).Some? ==>
      Find(Updated(xs, id, data), id) == Some(Merge(Find(xs, id).value, data))
  {
    if xs != [] {
      var ys := Updated(xs, id, data);
      assert ys[1..] == Updated(xs[1..], id, data);
      if xs[0].id != id {
        UpdateThenFind(xs[1..], id, data);
      }
    }
  }

  /** `update` with an id no record has leaves the collection unchanged. */
  lemma UpdateAbsentIsNoOp(xs: seq<Employee>, id: string, data: EmployeeFormData)
    requires IsFreshId(xs, id)
    ensures Updated(xs, id, data) == xs
  {
  }

  /** `update` keeps the id of every record, hence unique ids stay unique. */
  lemma UpdatePreservesUniqueIds(xs: seq<Employee>, id: string, data: EmployeeFormData)
    requires UniqueIds(xs)
    ensures UniqueIds(Updated(xs, id, data))
  {
    var ys := Updated(xs, id, data);
    assert forall i :: 0 <= i < |xs| ==> ys[i].id == Ids(ys)[i] == Ids(xs)[i] == xs[i].id;
  }

  /** After `delete(id)`, looking the id up finds nothing. */
  lemma DeleteThenFind(xs: seq<Employee>, id: string)
    ensures Find(Removed(xs, id), id) == None
  {
    var r := Removed(xs, id);
    forall i | 0 <= i < |r| ensures r[i].id != id {
      assert r[i] in r;
    }
  }

  /** Deleting keeps the remaining records in their relative order. */
  lemma DeleteKeepsOrder(xs: seq<Employee>, id: string)
    ensures IsSubsequence(Removed(xs, id), xs)
  {
    FilterIsSubsequence(xs, (e: Employee) => e.id != id);
  }

  /** `delete` keeps unique ids unique. */
  lemma RemovedKeepsUniqueIds(xs: seq<Employee>, id: string)
    requires UniqueIds(xs)
    ensures UniqueIds(Removed(xs, id))
  {
    FilterKeepsDistinctKeys(xs, (e: Employee) => e.id != id, (e: Employee) => e.id);
  }

  /**
   * With unique ids, `delete` shrinks the collection by exactly one when the id is
   * present and leaves its size alone when it is absent; unique ids stay unique.
   */
  lemma DeleteCount(xs: seq<Employee>, id: string)
    requires UniqueIds(xs)
    ensures |Removed(xs, id)| == if IsFreshId(xs, id) then |xs| else |xs| - 1
    ensures UniqueIds(Removed(xs, id))
  {
    RemovedKeepsUniqueIds(xs, id);
    var key := (e: Employee) => e.id;
    FilterDropsKey(xs, (e: Employee) => e.id != id, key, id);
    assert HasKey(xs, key, id) <==> !IsFreshId(xs, id) by {
      if !IsFreshId(xs, id) {
        var i :| 0 <= i < |xs| && xs[i].id == id;
        assert key(xs[i]) == id;
      }
    }
  }

  /**
   * The store. `employees` is the collection the pages render; `saved` is the storage
   * slot, which the store overwrites with the whole collection after every change.
   */
  class EmployeeStore {
    var employees: seq<Employee>
    var saved: Slot

    /** The slot mirrors the collection. */
    predicate Persisted()
      reads this
    {
      saved == Holding(employees)
    }

    /** Loads the initial collection from `slot`; the persistence effect then writes it back. */
    constructor (slot: Slot)
      ensures employees == InitialEmployees(slot)
      ensures Persisted()
    {
      employees := InitialEmployees(slot);
      saved := Holding(InitialEmployees(slot));
    }

    /** Replaces the collection and writes it to the slot. */
    method Commit(next: seq<Employee>)
      modifies this
      ensures employees == next
      ensures Persisted()
    {
      employees := next;
      saved := Holding(next);
    }

    /** Appends a record made of `data` and the generated id `newId`, and returns it. */
    method Add(data: EmployeeFormData, newId: string) returns (created: Employee)
      modifies this
      ensures created == NewEmployee(data, newId)
      ensures employees == old(employees) + [created]
      ensures Persisted()
      ensures UniqueIds(old(employees)) && IsFreshId(old(employees), newId) ==> UniqueIds(employees)
    {
      created := NewEmployee(data, newId);
      Commit(employees + [created]);
    }

    /** Merges `data` into every record whose id is `id`; an unknown id changes nothing. */
    method Update(id: string, data: EmployeeFormData)
      modifies this
      ensures employees == Updated(old(employees), id, data)
      ensures Persisted()
      ensures UniqueIds(old(employees)) ==> UniqueIds(employees)
    {
      ghost var unique := UniqueIds(employees);
      if unique {
        UpdatePreservesUniqueIds(employees, id, data);
      }
      Commit(Updated(employees, id, data));
    }

    /** Drops every record whose id is `id`; an unknown id changes nothing. */
    method Delete(id: string)
      modifies this
      ensures employees == Removed(old(employees), id)
      ensures Persisted()
      ensures UniqueIds(old(employees)) ==> UniqueIds(employees)
    {
      ghost var unique := UniqueIds(employees);
      if unique {
        RemovedKeepsUniqueIds(employees, id);
      }
      Commit(Removed(employees, id));
    }

    /** The first record whose id is `id`, or `None`. */
    method Get(id: string) returns (r: Option<Employee>)
      ensures r == Find(employees, id)
      ensures r.Some? ==> r.value in employees && r.value.id == id
    {
      r := Find(employees, id);
    }
  }
}
