/**
  The in-memory employee store (app/database.py): an ordered list of Employee
  records with create, list, lookup, partial update, delete and seeding.

  The first half states what each operation does to the list as functions over
  `seq<Employee>` and proves the store's properties about them; the class
  `Database` then implements the operations imperatively and is proved to
  follow those functions.
 */
module Database {
  import opened Wrappers
  import opened Models

  /** The error `add_employee` raises (a ValueError naming the id). */
  datatype DbError = DuplicateId(id: string)

  datatype Result<T> = Success(value: T) | Failure(error: DbError)

  // ---------------------------------------------------------------------
  // The store's contents as a sequence
  // ---------------------------------------------------------------------

  /** Some record of `s` carries `id`. */
  predicate HasId(s: seq<Employee>, id: string)
  {
    exists i :: 0 <= i < |s| && s[i].id == id
  }

  /** No two records of `s` share an id. */
  predicate UniqueIds(s: seq<Employee>)
  {
    forall i, j :: 0 <= i < j < |s| ==> s[i].id != s[j].id
  }

  /** The position of the first record carrying `id`, as the linear scan finds it. */
  function FirstIndex(s: seq<Employee>, id: string): (r: Option<nat>)
    ensures r.None? <==> !HasId(s, id)
    ensures r.Some? ==> r.value < |s| && s[r.value].id == id
    ensures r.Some? ==> forall j :: 0 <= j < r.value ==> s[j].id != id
    decreases |s|
  {
    if |s| == 0 then None
    else if s[0].id == id then Some(0)
    else
      match FirstIndex(s[1..], id)
      case None => None
      case Some(k) => Some(k + 1)
  }

  /** The first record carrying `id`, or None when no record does. */
  function Lookup(s: seq<Employee>, id: string): (r: Option<Employee>)
    ensures r.None? <==> !HasId(s, id)
    ensures r.Some? ==> r.value.id == id && r.value in s
  {
    match FirstIndex(s, id)
    case None => None
    case Some(i) => Some(s[i])
  }

  /** The record an update leaves behind: the patch merged in, `updated_at` refreshed. */
  function Revised(e: Employee, data: EmployeeUpdate, now: Instant): (r: Employee)
    ensures r.id == e.id && r.createdAt == e.createdAt && r.updatedAt == now
    ensures forall f :: SuppliesText(data, f) ==> Get(r, f) == Supplied(data, f).value.value
    ensures forall f :: !SuppliesText(data, f) ==> Get(r, f) == Get(e, f)
  {
    ApplyPatch(e, data).(updatedAt := now)
  }

  /** The list after `add_employee`: unchanged on a duplicate id, else the new record appended. */
  function Inserted(s: seq<Employee>, input: EmployeeCreate, now: Instant): (r: seq<Employee>)
    ensures UniqueIds(s) ==> UniqueIds(r)
    ensures HasId(r, input.id)
  {
    if HasId(s, input.id) then s
    else
      var r := s + [NewEmployee(input, now)];
      assert r[|s|].id == input.id;
      assert forall i :: 0 <= i < |s| ==> r[i] == s[i];
      r
  }

  /** The list after `update_employee`: the first record with `id` revised in place. */
  function Patched(s: seq<Employee>, id: string, data: EmployeeUpdate, now: Instant): (r: seq<Employee>)
    ensures |r| == |s|
    ensures forall j :: 0 <= j < |s| ==> r[j].id == s[j].id && r[j].createdAt == s[j].createdAt
    ensures forall j :: 0 <= j < |s| && FirstIndex(s, id) != Some(j) ==> r[j] == s[j]
    ensures UniqueIds(s) ==> UniqueIds(r)
  {
    match FirstIndex(s, id)
    case None => s
    case Some(i) => s[i := Revised(s[i], data, now)]
  }

  /** The list after `delete_employee`: the first record with `id` taken out. */
  function Removed(s: seq<Employee>, id: string): (r: seq<Employee>)
    ensures |r| == if HasId(s, id) then |s| - 1 else |s|
    ensures forall x :: x in r ==> x in s
    ensures UniqueIds(s) ==> UniqueIds(r)
  {
    match FirstIndex(s, id)
    case None => s
    case Some(i) =>
      var r := s[..i] + s[i + 1..];
      assert forall j :: 0 <= j < |r| ==> r[j] == if j < i then s[j] else s[j + 1];
      r
  }

  /** The four demonstration records, in the order `init_sample_data` adds them. */
  const SAMPLE_INPUTS: seq<EmployeeCreate> := [
    EmployeeCreate("E001", "John", "Smith", "Headquarters", "Software Engineer"),
    EmployeeCreate("E002", "Sarah", "Johnson", "Regional Office", "Project Manager"),
    EmployeeCreate("E003", "Michael", "Williams", "Headquarters", "Data Analyst"),
    EmployeeCreate("E004", "Emily", "Brown", "Branch Office", "HR Specialist")]

  /** The list `init_sample_data` builds on an empty store: the four fixed inputs added in order. */
  function SampleData(now: Instant): (r: seq<Employee>)
    ensures UniqueIds(r)
  {
    Inserted(Inserted(Inserted(Inserted([], SAMPLE_INPUTS[0], now),
      SAMPLE_INPUTS[1], now), SAMPLE_INPUTS[2], now), SAMPLE_INPUTS[3], now)
  }

  /** The four fixed inputs carry pairwise distinct ids. */
  lemma SampleInputIdsDistinct()
    ensures forall i, j :: 0 <= i < j < |SAMPLE_INPUTS| ==> SAMPLE_INPUTS[i].id != SAMPLE_INPUTS[j].id
  {
  }

  /** Adding an input whose id no record carries appends exactly its new record. */
  lemma InsertFresh(s: seq<Employee>, input: EmployeeCreate, now: Instant)
    requires forall k :: 0 <= k < |s| ==> s[k].id != input.id
    ensures Inserted(s, input, now) == s + [NewEmployee(input, now)]
  {
  }

  /** Each of the four adds succeeds: the seeded list holds one new record per fixed input, in order. */
  lemma SampleContents(now: Instant)
    ensures |SampleData(now)| == |SAMPLE_INPUTS|
    ensures forall i :: 0 <= i < |SAMPLE_INPUTS| ==>
      Base(SampleData(now)[i]) == SAMPLE_INPUTS[i] && SampleData(now)[i].createdAt == SampleData(now)[i].updatedAt == now
  {
    var e := seq(4, i requires 0 <= i < 4 => NewEmployee(SAMPLE_INPUTS[i], now));
    SampleInputIdsDistinct();
    InsertFresh([], SAMPLE_INPUTS[0], now);
    assert Inserted([], SAMPLE_INPUTS[0], now) == e[..1];
    InsertFresh(e[..1], SAMPLE_INPUTS[1], now);
    assert e[..1] + [e[1]] == e[..2];
    InsertFresh(e[..2], SAMPLE_INPUTS[2], now);
    assert e[..2] + [e[2]] == e[..3];
    InsertFresh(e[..3], SAMPLE_INPUTS[3], now);
    assert e[..3] + [e[3]] == e;
  }

  /** The list after `init_sample_data`: a non-empty store is left alone. */
  function Seeded(s: seq<Employee>, now: Instant): (r: seq<Employee>)
    ensures s != [] ==> r == s
    ensures s == [] ==> |r| == 4 && UniqueIds(r)
  {
    SampleContents(now);
    if |s| > 0 then s else SampleData(now)
  }

  // ---------------------------------------------------------------------
  // Properties of the operations
  // ---------------------------------------------------------------------

  /** The scan's answer is pinned down by its two properties. */
  lemma FirstIndexAt(s: seq<Employee>, id: string, k: nat)
    requires k < |s| && s[k].id == id
    requires forall j :: 0 <= j < k ==> s[j].id != id
    ensures FirstIndex(s, id) == Some(k)
  {
  }

  /** Adding fails on a present id and leaves the list; otherwise it appends the new record at the end. */
  lemma InsertedShape(s: seq<Employee>, input: EmployeeCreate, now: Instant)
    ensures HasId(s, input.id) ==> Inserted(s, input, now) == s
    ensures !HasId(s, input.id) ==> Inserted(s, input, now) == s + [NewEmployee(input, now)]
  {
  }

  /** A newly added record is found by its id straight away. */
  lemma LookupAfterInsert(s: seq<Employee>, input: EmployeeCreate, now: Instant)
    requires !HasId(s, input.id)
    ensures Lookup(Inserted(s, input, now), input.id) == Some(NewEmployee(input, now))
  {
  }

  /** Adding a record (or failing to) does not change what an existing id finds. */
  lemma LookupStableUnderInsert(s: seq<Employee>, input: EmployeeCreate, now: Instant, id: string)
    requires HasId(s, id)
    ensures Lookup(Inserted(s, input, now), id) == Lookup(s, id)
  {
    if !HasId(s, input.id) {
      var k := FirstIndex(s, id).value;
      FirstIndexAt(s + [NewEmployee(input, now)], id, k);
    }
  }

  /** Updating one id does not change what any other id finds. */
  lemma LookupStableUnderPatch(s: seq<Employee>, other: string, data: EmployeeUpdate, now: Instant, id: string)
    requires other != id
    ensures Lookup(Patched(s, other, data, now), id) == Lookup(s, id)
  {
    if HasId(s, id) {
      var k := FirstIndex(s, id).value;
      assert FirstIndex(s, other) != Some(k);
      FirstIndexAt(Patched(s, other, data, now), id, k);
    }
  }

  /** After an update, the id finds the revised record. */
  lemma LookupAfterPatch(s: seq<Employee>, id: string, data: EmployeeUpdate, now: Instant)
    requires HasId(s, id)
    ensures Lookup(Patched(s, id, data, now), id) == Some(Revised(Lookup(s, id).value, data, now))
  {
  }

  /** Deleting one id does not change what any other id finds. */
  lemma LookupStableUnderRemove(s: seq<Employee>, other: string, id: string)
    requires other != id
    ensures Lookup(Removed(s, other), id) == Lookup(s, id)
  {
    var r := Removed(s, other);
    if HasId(s, other) && HasId(s, id) {
      var i := FirstIndex(s, other).value;
      var k := FirstIndex(s, id).value;
      var k' := if k < i then k else k - 1;
      RemovedAt(s, other, k');
      forall j | 0 <= j < k' ensures r[j].id != id {
        RemovedAt(s, other, j);
      }
      FirstIndexAt(r, id, k');
    }
  }

  /** Position `j` after a delete holds the record that was at `j`, or at `j + 1` past the removed one. */
  lemma RemovedAt(s: seq<Employee>, id: string, j: nat)
    requires HasId(s, id) && j < |s| - 1
    ensures var i := FirstIndex(s, id).value;
      Removed(s, id)[j] == s[if j < i then j else j + 1]
  {
    RemovedShape(s, id);
    var i := FirstIndex(s, id).value;
    var r := Removed(s, id);
    if j < i {
      assert r[j] == s[..i][j];
    } else {
      assert r[j] == s[i + 1..][j - i];
    }
  }

  /** Deleting takes out exactly the first record with the id and keeps the rest in order. */
  lemma RemovedShape(s: seq<Employee>, id: string)
    requires HasId(s, id)
    ensures var i := FirstIndex(s, id).value;
      s[i].id == id && Removed(s, id) == s[..i] + s[i + 1..]
  {
    var i := FirstIndex(s, id).value;
    assert Removed(s, id) == s[..i] + s[i + 1..];
  }

  /** With distinct ids, a second delete of the same id finds nothing. */
  lemma RemoveTwice(s: seq<Employee>, id: string)
    requires UniqueIds(s)
    ensures !HasId(Removed(s, id), id)
    ensures Removed(Removed(s, id), id) == Removed(s, id)
  {
  }

  /** An empty patch changes only `updated_at` of the record it finds. */
  lemma EmptyPatchTouchesOnlyTimestamp(s: seq<Employee>, id: string, now: Instant)
    requires HasId(s, id)
    ensures var i := FirstIndex(s, id).value;
      Patched(s, id, EMPTY_UPDATE, now) == s[i := s[i].(updatedAt := now)]
  {
  }

  /** Seeding is idempotent: a second call leaves the four records as they are. */
  lemma SeedTwice(s: seq<Employee>, now: Instant, later: Instant)
    ensures Seeded(Seeded(s, now), later) == Seeded(s, now)
    ensures |Seeded(Seeded([], now), later)| == 4
  {
  }

  /** The seeded store holds E001 to E004, in that order. */
  lemma SampleIds(now: Instant)
    ensures var r := Seeded([], now);
      |r| == 4 && r[0].id == "E001" && r[1].id == "E002" && r[2].id == "E003" && r[3].id == "E004"
  {
  }

  // ---------------------------------------------------------------------
  // The update loop
  // ---------------------------------------------------------------------

  /** The `setattr` loop of `update_employee` over the supplied fields of `data`. */
  method PatchRecord(emp: Employee, data: EmployeeUpdate) returns (e: Employee)
    ensures e == ApplyPatch(emp, data)
  {
    var items := SuppliedFields(data);
    e := emp;
    var k := 0;
    while k < |items|
      invariant 0 <= k <= |items|
      invariant ApplyItems(e, items[k..]) == ApplyItems(emp, items)
    {
      assert items[k..][1..] == items[k + 1..];
      e := SetAttr(e, items[k].0, items[k].1);
      k := k + 1;
    }
    ApplyItemsIsPatch(emp, data);
  }

  // ---------------------------------------------------------------------
  // The store object
  // ---------------------------------------------------------------------

  class Database {
    /** The stored records, in insertion order. */
    var employees: seq<Employee>

    /** The store's invariant: ids are pairwise distinct. */
    ghost predicate Valid()
      reads this
    {
      UniqueIds(employees)
    }

    constructor ()
      ensures Valid() && employees == []
    {
      employees := [];
    }

    /** `add_employee`: fails on a duplicate id, otherwise appends and returns the new record. */
    method AddEmployee(employee: EmployeeCreate, now: Instant) returns (r: Result<Employee>)
      requires Valid()
      modifies this
      ensures Valid()
      ensures employees == Inserted(old(employees), employee, now)
      ensures r.Failure? <==> HasId(old(employees), employee.id)
      ensures r.Failure? ==> r.error == DuplicateId(employee.id) && employees == old(employees)
      ensures r.Success? ==>
        r.value == NewEmployee(employee, now) && employees == old(employees) + [r.value]
    {
      var existing := GetEmployeeById(employee.id);
      if existing.Some? {
        return Failure(DuplicateId(employee.id));
      }
      var emp := NewEmployee(employee, now);
      employees := employees + [emp];
      return Success(emp);
    }

    /** `get_all_employees`: every record, in insertion order. */
    method GetAllEmployees() returns (r: seq<Employee>)
      ensures r == employees
    {
      return employees;
    }

    /** The linear scan: the position of the first record carrying `id`. */
    method IndexOf(id: string) returns (r: Option<nat>)
      ensures r == FirstIndex(employees, id)
    {
      var i := 0;
      while i < |employees|
        invariant 0 <= i <= |employees|
        invariant forall j :: 0 <= j < i ==> employees[j].id != id
      {
        if employees[i].id == id {
          FirstIndexAt(employees, id, i);
          return Some(i);
        }
        i := i + 1;
      }
      return None;
    }

    /** `get_employee_by_id`: the first record carrying `id`, or None. */
    method GetEmployeeById(id: string) returns (r: Option<Employee>)
      ensures r == Lookup(employees, id)
    {
      var i := IndexOf(id);
      if i.None? {
        return None;
      }
      return Some(employees[i.value]);
    }

    /** `update_employee`: None when the id is absent, otherwise the revised record. */
    method UpdateEmployee(id: string, data: EmployeeUpdate, now: Instant) returns (r: Option<Employee>)
      requires Valid()
      modifies this
      ensures Valid()
      ensures employees == Patched(old(employees), id, data, now)
      ensures r.None? <==> !HasId(old(employees), id)
      ensures r.None? ==> employees == old(employees)
      ensures r.Some? ==> r.value == Revised(Lookup(old(employees), id).value, data, now)
    {
      var i := IndexOf(id);
      if i.None? {
        return None;
      }
      var emp := PatchRecord(employees[i.value], data);
      emp := emp.(updatedAt := now);
      employees := employees[i.value := emp];
      return Some(emp);
    }

    /** `list.remove`: the position of the first record equal to `e`. */
    method IndexOfRecord(e: Employee) returns (j: nat)
      requires e in employees
      ensures j < |employees| && employees[j] == e
      ensures forall k :: 0 <= k < j ==> employees[k] != e
    {
      j := 0;
      while employees[j] != e
        invariant j < |employees|
        invariant forall k :: 0 <= k < j ==> employees[k] != e
        invariant exists k :: j <= k < |employees| && employees[k] == e
        decreases |employees| - j
      {
        j := j + 1;
      }
    }

    /** `delete_employee`: True when the id was present, and then its record is gone. */
    method DeleteEmployee(id: string) returns (found: bool)
      requires Valid()
      modifies this
      ensures Valid()
      ensures found <==> HasId(old(employees), id)
      ensures employees == Removed(old(employees), id)
    {
      var emp := GetEmployeeById(id);
      if emp.None? {
        return false;
      }
      var j := IndexOfRecord(emp.value);
      // `remove` deletes the first equal record, which is the one the scan found.
      FirstIndexAt(employees, id, j);
      employees := employees[..j] + employees[j + 1..];
      return true;
    }

    /** `init_sample_data`: on an empty store adds E001 to E004; otherwise does nothing. */
    method InitSampleData(now: Instant)
      requires Valid()
      modifies this
      ensures Valid()
      ensures employees == Seeded(old(employees), now)
    {
      if |employees| > 0 {
        return;
      }
      var r := AddEmployee(SAMPLE_INPUTS[0], now);
      ghost var s1 := employees;
      r := AddEmployee(SAMPLE_INPUTS[1], now);
      r := AddEmployee(SAMPLE_INPUTS[2], now);
      r := AddEmployee(SAMPLE_INPUTS[3], now);
      assert s1 == Inserted([], SAMPLE_INPUTS[0], now);
      assert employees == Inserted(Inserted(Inserted(s1, SAMPLE_INPUTS[1], now), SAMPLE_INPUTS[2], now), SAMPLE_INPUTS[3], now);
    }
  }
}
