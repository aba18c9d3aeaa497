/**
  The record shapes of the employee service (app/models.py): the create input,
  the presence-tracking update patch, the stored employee record with its
  `to_dict` view, and the response shape built from that view.
 */
module Models {
  import opened Wrappers

  /** A point in time as read from the clock; the clock itself is a parameter of the store. */
  type Instant = int

  /** EmployeeCreate: the externally assigned id plus the four required strings of EmployeeBase. */
  datatype EmployeeCreate = EmployeeCreate(
    id: string,
    firstName: string,
    lastName: string,
    officeName: string,
    jobTitle: string)

  /**
    EmployeeUpdate as the store receives it. It has no `id` field. For each field the
    outer Option says whether the caller supplied it (pydantic's "set" fields); the
    inner Option is the supplied `Optional[str]` value, None standing for an explicit null.
   */
  datatype EmployeeUpdate = EmployeeUpdate(
    firstName: Option<Option<string>>,
    lastName: Option<Option<string>>,
    officeName: Option<Option<string>>,
    jobTitle: Option<Option<string>>)

  /** The patch in which the caller supplied nothing. */
  const EMPTY_UPDATE := EmployeeUpdate(None, None, None, None)

  /** The stored Employee record. */
  datatype Employee = Employee(
    id: string,
    firstName: string,
    lastName: string,
    officeName: string,
    jobTitle: string,
    createdAt: Instant,
    updatedAt: Instant)

  /** EmployeeResponse: EmployeeBase plus id and both timestamps. */
  datatype EmployeeResponse = EmployeeResponse(
    id: string,
    firstName: string,
    lastName: string,
    officeName: string,
    jobTitle: string,
    createdAt: Instant,
    updatedAt: Instant)

  /** The four fields a patch may name, in their declaration order. */
  datatype Field = FirstName | LastName | OfficeName | JobTitle

  /** The create input a record was built from: its id and its four base strings. */
  function Base(e: Employee): EmployeeCreate
  {
    EmployeeCreate(e.id, e.firstName, e.lastName, e.officeName, e.jobTitle)
  }

  /** The record `add_employee` builds: the input's fields, both timestamps set to `now`. */
  function NewEmployee(input: EmployeeCreate, now: Instant): (e: Employee)
    ensures Base(e) == input
    ensures e.createdAt == e.updatedAt == now
  {
    Employee(input.id, input.firstName, input.lastName, input.officeName, input.jobTitle, now, now)
  }

  /** `getattr(e, f)` for a patchable field. */
  function Get(e: Employee, f: Field): string
  {
    match f
    case FirstName => e.firstName
    case LastName => e.lastName
    case OfficeName => e.officeName
    case JobTitle => e.jobTitle
  }

  /** `setattr(e, f, v)`: field `f` becomes `v`, every other field keeps its value. */
  function SetAttr(e: Employee, f: Field, v: string): (r: Employee)
    ensures Get(r, f) == v
    ensures forall g :: g != f ==> Get(r, g) == Get(e, g)
    ensures r.id == e.id && r.createdAt == e.createdAt && r.updatedAt == e.updatedAt
  {
    match f
    case FirstName => e.(firstName := v)
    case LastName => e.(lastName := v)
    case OfficeName => e.(officeName := v)
    case JobTitle => e.(jobTitle := v)
  }

  /** What the caller put in the patch for field `f`. */
  function Supplied(p: EmployeeUpdate, f: Field): Option<Option<string>>
  {
    match f
    case FirstName => p.firstName
    case LastName => p.lastName
    case OfficeName => p.officeName
    case JobTitle => p.jobTitle
  }

  /** True when the caller supplied field `f` with a string value (not an explicit null). */
  predicate SuppliesText(p: EmployeeUpdate, f: Field)
  {
    Supplied(p, f).Some? && Supplied(p, f).value.Some?
  }

  /** True when the caller supplied field `f` as an explicit null. */
  predicate SuppliesNull(p: EmployeeUpdate, f: Field)
  {
    Supplied(p, f) == Some(None)
  }

  /** True when `f` is named by some entry of `items`. */
  predicate Names<V>(items: seq<(Field, V)>, f: Field)
  {
    exists i :: 0 <= i < |items| && items[i].0 == f
  }

  /** True when no field is named twice in `items`. */
  predicate DistinctFields<V>(items: seq<(Field, V)>)
  {
    forall i, j :: 0 <= i < j < |items| ==> items[i].0 != items[j].0
  }

  /** What putting one entry in front of a list of entries does to the fields it names. */
  lemma PrependEntry<V>(x: (Field, V), rest: seq<(Field, V)>)
    ensures Names([x] + rest, x.0)
    ensures forall f :: Names([x] + rest, f) <==> f == x.0 || Names(rest, f)
    ensures forall i :: 1 <= i < |rest| + 1 ==> ([x] + rest)[i] == rest[i - 1]
    ensures DistinctFields(rest) && !Names(rest, x.0) ==> DistinctFields([x] + rest)
  {
    var items := [x] + rest;
    assert items[0] == x;
    forall f | Names(rest, f) ensures Names(items, f) {
      var i :| 0 <= i < |rest| && rest[i].0 == f;
      assert items[i + 1] == rest[i];
    }
  }

  /** The patchable fields in their declaration order, the order model_dump follows. */
  const FIELDS: seq<Field> := [FirstName, LastName, OfficeName, JobTitle]

  /** No field appears twice in `fields`. */
  predicate NoRepeats(fields: seq<Field>)
  {
    forall i, j :: 0 <= i < j < |fields| ==> fields[i] != fields[j]
  }

  /** FIELDS lists every field, each once. */
  lemma FieldsListed()
    ensures forall f :: f in FIELDS
    ensures NoRepeats(FIELDS)
  {
    forall f ensures f in FIELDS {
      match f
      case FirstName => assert FIELDS[0] == f;
      case LastName => assert FIELDS[1] == f;
      case OfficeName => assert FIELDS[2] == f;
      case JobTitle => assert FIELDS[3] == f;
    }
  }

  // ---------------------------------------------------------------------
  // model_dump(exclude_unset=True) as the source calls it
  // ---------------------------------------------------------------------

  /** The dump restricted to `fields`: one entry per supplied field, an explicit null kept as None. */
  function DumpOf(p: EmployeeUpdate, fields: seq<Field>): (items: seq<(Field, Option<string>)>)
    ensures forall i :: 0 <= i < |items| ==>
      items[i].0 in fields && Supplied(p, items[i].0) == Some(items[i].1)
    ensures forall f :: f in fields && Supplied(p, f).Some? ==> Names(items, f)
    ensures NoRepeats(fields) ==> DistinctFields(items)
  {
    if fields == [] then []
    else
      var rest := DumpOf(p, fields[1..]);
      var s := Supplied(p, fields[0]);
      assert forall f :: f in fields ==> f == fields[0] || f in fields[1..];
      assert NoRepeats(fields) ==> NoRepeats(fields[1..]) && !Names(rest, fields[0]);
      if s.Some? then
        var items := [(fields[0], s.value)] + rest;
        PrependEntry(items[0], rest);
        items
      else
        rest
  }

  /**
    The dictionary `data.model_dump(exclude_unset=True)` yields, as the source calls it:
    one entry per supplied field, in declaration order, an explicit null kept as None.
   */
  function DumpAsWritten(p: EmployeeUpdate): (items: seq<(Field, Option<string>)>)
    ensures DistinctFields(items)
    ensures forall f :: Names(items, f) <==> Supplied(p, f).Some?
    ensures forall i :: 0 <= i < |items| ==> Supplied(p, items[i].0) == Some(items[i].1)
  {
    FieldsListed();
    DumpOf(p, FIELDS)
  }

  /**
    A patch that supplies `first_name` as an explicit null: the dump the source loops over
    holds a None value for it, so the setattr loop writes None into a field declared `str`.
   */
  lemma ExplicitNullIsDumped()
    ensures DumpAsWritten(EmployeeUpdate(Some(None), None, None, None)) == [(FirstName, None)]
  {
  }

  // ---------------------------------------------------------------------
  // The corrected dump: explicit nulls are left out
  // ---------------------------------------------------------------------

  /** The corrected dump restricted to `fields`: one entry per field supplied with a string. */
  function TextOf(p: EmployeeUpdate, fields: seq<Field>): (items: seq<(Field, string)>)
    ensures forall i :: 0 <= i < |items| ==>
      items[i].0 in fields && Supplied(p, items[i].0) == Some(Some(items[i].1))
    ensures forall f :: f in fields && SuppliesText(p, f) ==> Names(items, f)
    ensures NoRepeats(fields) ==> DistinctFields(items)
  {
    if fields == [] then []
    else
      var rest := TextOf(p, fields[1..]);
      var s := Supplied(p, fields[0]);
      assert forall f :: f in fields ==> f == fields[0] || f in fields[1..];
      assert NoRepeats(fields) ==> NoRepeats(fields[1..]) && !Names(rest, fields[0]);
      if s.Some? && s.value.Some? then
        var items := [(fields[0], s.value.value)] + rest;
        PrependEntry(items[0], rest);
        items
      else
        rest
  }

  /**
    The fields the store writes: every field supplied with a string, in declaration
    order; an explicit null is treated like an unsupplied field.
   */
  function SuppliedFields(p: EmployeeUpdate): (items: seq<(Field, string)>)
    ensures DistinctFields(items)
    ensures forall f :: Names(items, f) <==> SuppliesText(p, f)
    ensures forall i :: 0 <= i < |items| ==> Supplied(p, items[i].0) == Some(Some(items[i].1))
  {
    FieldsListed();
    TextOf(p, FIELDS)
  }

  /** Without explicit nulls among `fields`, the two dumps agree entry by entry. */
  lemma {:induction false} DumpOfAgrees(p: EmployeeUpdate, fields: seq<Field>)
    requires forall f :: f in fields ==> !SuppliesNull(p, f)
    ensures |TextOf(p, fields)| == |DumpOf(p, fields)|
    ensures forall i :: 0 <= i < |TextOf(p, fields)| ==>
      DumpOf(p, fields)[i] == (TextOf(p, fields)[i].0, Some(TextOf(p, fields)[i].1))
  {
    if fields != [] {
      var s := Supplied(p, fields[0]);
      assert !SuppliesNull(p, fields[0]);
      DumpOfAgrees(p, fields[1..]);
      var texts, dumps := TextOf(p, fields[1..]), DumpOf(p, fields[1..]);
      if s.Some? {
        assert TextOf(p, fields) == [(fields[0], s.value.value)] + texts;
        assert DumpOf(p, fields) == [(fields[0], s.value)] + dumps;
      } else {
        assert TextOf(p, fields) == texts;
        assert DumpOf(p, fields) == dumps;
      }
    }
  }

  /** On a patch without explicit nulls the corrected dump is the source's dump, entry by entry. */
  lemma DumpsAgreeWithoutNulls(p: EmployeeUpdate)
    requires forall f :: !SuppliesNull(p, f)
    ensures |SuppliedFields(p)| == |DumpAsWritten(p)|
    ensures forall i :: 0 <= i < |SuppliedFields(p)| ==>
      DumpAsWritten(p)[i] == (SuppliedFields(p)[i].0, Some(SuppliedFields(p)[i].1))
  {
    DumpOfAgrees(p, FIELDS);
  }

  // ---------------------------------------------------------------------
  // Applying a patch
  // ---------------------------------------------------------------------

  /** The setattr loop: apply the entries of `items` to `e` from first to last. */
  function ApplyItems(e: Employee, items: seq<(Field, string)>): (r: Employee)
    ensures r.id == e.id && r.createdAt == e.createdAt && r.updatedAt == e.updatedAt
    ensures forall f :: !Names(items, f) ==> Get(r, f) == Get(e, f)
    decreases |items|
  {
    if items == [] then e else ApplyItems(SetAttr(e, items[0].0, items[0].1), items[1..])
  }

  /**
    What the setattr loop does when no field is named twice: every named field holds
    its entry's value, every other field and the identity and timestamps are kept.
   */
  lemma {:induction false} ApplyItemsEffect(e: Employee, items: seq<(Field, string)>)
    requires DistinctFields(items)
    ensures var r := ApplyItems(e, items);
      r.id == e.id && r.createdAt == e.createdAt && r.updatedAt == e.updatedAt
    ensures forall i :: 0 <= i < |items| ==> Get(ApplyItems(e, items), items[i].0) == items[i].1
    ensures forall f :: !Names(items, f) ==> Get(ApplyItems(e, items), f) == Get(e, f)
    decreases |items|
  {
    if items != [] {
      var e' := SetAttr(e, items[0].0, items[0].1);
      var rest := items[1..];
      ApplyItemsEffect(e', rest);
      assert !Names(rest, items[0].0) by {
        forall i | 0 <= i < |rest| ensures rest[i].0 != items[0].0 {
          assert rest[i] == items[i + 1];
        }
      }
      forall f | !Names(items, f) ensures !Names(rest, f) { }
      forall i | 1 <= i < |items| ensures items[i] == rest[i - 1] { }
    }
  }

  /** One field of the merge: a supplied string replaces the current value. */
  function Merge(current: string, s: Option<Option<string>>): string
  {
    if s.Some? && s.value.Some? then s.value.value else current
  }

  /**
    The field-by-field merge of a patch into a record: the reference definition of a
    partial update. Identity and timestamps are never touched; a field takes the
    supplied string when there is one and keeps its value otherwise.
   */
  function ApplyPatch(e: Employee, p: EmployeeUpdate): (r: Employee)
    ensures r.id == e.id && r.createdAt == e.createdAt && r.updatedAt == e.updatedAt
    ensures forall f :: SuppliesText(p, f) ==> Get(r, f) == Supplied(p, f).value.value
    ensures forall f :: !SuppliesText(p, f) ==> Get(r, f) == Get(e, f)
  {
    Employee(e.id, Merge(e.firstName, p.firstName), Merge(e.lastName, p.lastName),
      Merge(e.officeName, p.officeName), Merge(e.jobTitle, p.jobTitle), e.createdAt, e.updatedAt)
  }

  /** Two records that agree on id, timestamps and every patchable field are equal. */
  lemma FieldsDetermineRecord(a: Employee, b: Employee)
    requires a.id == b.id && a.createdAt == b.createdAt && a.updatedAt == b.updatedAt
    requires forall f :: Get(a, f) == Get(b, f)
    ensures a == b
  {
    assert Get(a, FirstName) == Get(b, FirstName) && Get(a, LastName) == Get(b, LastName);
    assert Get(a, OfficeName) == Get(b, OfficeName) && Get(a, JobTitle) == Get(b, JobTitle);
  }

  /** The setattr loop over the dump gives exactly the field-by-field merge. */
  lemma ApplyItemsIsPatch(e: Employee, p: EmployeeUpdate)
    ensures ApplyItems(e, SuppliedFields(p)) == ApplyPatch(e, p)
  {
    var items := SuppliedFields(p);
    var r := ApplyItems(e, items);
    ApplyItemsEffect(e, items);
    forall f ensures Get(r, f) == Get(ApplyPatch(e, p), f) {
      if SuppliesText(p, f) {
        var i :| 0 <= i < |items| && items[i].0 == f;
      }
    }
    FieldsDetermineRecord(r, ApplyPatch(e, p));
  }

  /** An empty patch changes nothing. */
  lemma EmptyPatchIsIdentity(e: Employee)
    ensures ApplyPatch(e, EMPTY_UPDATE) == e
  {
  }

  /** Applying the same patch twice is the same as applying it once. */
  lemma ApplyPatchIdempotent(e: Employee, p: EmployeeUpdate)
    ensures ApplyPatch(ApplyPatch(e, p), p) == ApplyPatch(e, p)
  {
  }

  // ---------------------------------------------------------------------
  // to_dict and the response built from it
  // ---------------------------------------------------------------------

  /**
    A value of the dictionary `to_dict` returns: a string, a timestamp, or None (which
    only a record written by the update as the source has it can hold).
   */
  datatype Value = Text(text: string) | Time(time: Instant) | Null

  /** The keys of EmployeeBase. */
  const BASE_KEYS: set<string> := {"first_name", "last_name", "office_name", "job_title"}

  /** The seven attributes of the Employee record. */
  const EMPLOYEE_KEYS: set<string> :=
    {"id", "first_name", "last_name", "office_name", "job_title", "created_at", "updated_at"}

  /** The fields of EmployeeResponse: EmployeeBase plus id and the two timestamps. */
  const RESPONSE_KEYS: set<string> := BASE_KEYS + {"id", "created_at", "updated_at"}

  /** True for the keys whose value must be a timestamp. */
  predicate IsTimeKey(k: string)
  {
    k == "created_at" || k == "updated_at"
  }

  /** The value kind a response field demands: a timestamp for the two time keys, a string otherwise. */
  predicate RightKind(k: string, v: Value)
  {
    if IsTimeKey(k) then v.Time? else v.Text?
  }

  /** `Employee.to_dict`: one entry per attribute, nothing added or dropped. */
  function ToDict(e: Employee): (d: map<string, Value>)
    ensures d.Keys == EMPLOYEE_KEYS
    ensures forall k :: k in d ==> RightKind(k, d[k])
  {
    map[
      "id" := Text(e.id),
      "first_name" := Text(e.firstName),
      "last_name" := Text(e.lastName),
      "office_name" := Text(e.officeName),
      "job_title" := Text(e.jobTitle),
      "created_at" := Time(e.createdAt),
      "updated_at" := Time(e.updatedAt)]
  }

  /** True when `d` holds every response field with a value of the right kind. */
  predicate FitsResponse(d: map<string, Value>)
  {
    forall k :: k in RESPONSE_KEYS ==> k in d && RightKind(k, d[k])
  }

  /**
    `EmployeeResponse(**d)` on a dictionary of strings, timestamps and None: validation
    succeeds exactly when every response field is present with the right kind (None is
    not a `str`); keys outside the response are ignored.
   */
  function ResponseOf(d: map<string, Value>): (r: Option<EmployeeResponse>)
    ensures r.Some? <==> FitsResponse(d)
  {
    if "id" in d && d["id"].Text?
      && "first_name" in d && d["first_name"].Text?
      && "last_name" in d && d["last_name"].Text?
      && "office_name" in d && d["office_name"].Text?
      && "job_title" in d && d["job_title"].Text?
      && "created_at" in d && d["created_at"].Time?
      && "updated_at" in d && d["updated_at"].Time?
    then
      Some(EmployeeResponse(d["id"].text, d["first_name"].text, d["last_name"].text,
        d["office_name"].text, d["job_title"].text, d["created_at"].time, d["updated_at"].time))
    else
      None
  }

  /** EmployeeResponse has exactly the field set of Employee. */
  lemma ResponseKeysAreEmployeeKeys()
    ensures RESPONSE_KEYS == EMPLOYEE_KEYS
  {
  }

  /** Building a response from `to_dict` always validates and keeps every field value. */
  lemma ResponseOfToDict(e: Employee)
    ensures ResponseOf(ToDict(e)).Some?
    ensures var r := ResponseOf(ToDict(e)).value;
      r.id == e.id && r.firstName == e.firstName && r.lastName == e.lastName
      && r.officeName == e.officeName && r.jobTitle == e.jobTitle
      && r.createdAt == e.createdAt && r.updatedAt == e.updatedAt
  {
  }

  // ---------------------------------------------------------------------
  // The update as written: an explicit null reaches the record
  // ---------------------------------------------------------------------

  /**
    A stored record as the dataclass can hold it once `setattr` has run: the dataclass
    does not check types, so each patchable field may hold None as well as a string.
   */
  datatype StoredEmployee = StoredEmployee(
    id: string,
    firstName: Option<string>,
    lastName: Option<string>,
    officeName: Option<string>,
    jobTitle: Option<string>,
    createdAt: Instant,
    updatedAt: Instant)

  /** A well-typed record seen as a stored one: every patchable field holds its string. */
  function Stored(e: Employee): (r: StoredEmployee)
    ensures r.id == e.id && r.createdAt == e.createdAt && r.updatedAt == e.updatedAt
    ensures forall f :: StoredGet(r, f) == Some(Get(e, f))
  {
    StoredEmployee(e.id, Some(e.firstName), Some(e.lastName), Some(e.officeName),
      Some(e.jobTitle), e.createdAt, e.updatedAt)
  }

  /** The current value of one patchable field of a stored record. */
  function StoredGet(r: StoredEmployee, f: Field): Option<string>
  {
    match f
    case FirstName => r.firstName
    case LastName => r.lastName
    case OfficeName => r.officeName
    case JobTitle => r.jobTitle
  }

  /** `setattr(emp, k, v)` without a type check: None is written as readily as a string. */
  function SetAttrAsWritten(r: StoredEmployee, f: Field, v: Option<string>): (r': StoredEmployee)
    ensures StoredGet(r', f) == v
    ensures forall g :: g != f ==> StoredGet(r', g) == StoredGet(r, g)
    ensures r'.id == r.id && r'.createdAt == r.createdAt && r'.updatedAt == r.updatedAt
  {
    match f
    case FirstName => r.(firstName := v)
    case LastName => r.(lastName := v)
    case OfficeName => r.(officeName := v)
    case JobTitle => r.(jobTitle := v)
  }

  /** The setattr loop as the source runs it, over the dump with its explicit nulls. */
  function ApplyDumpAsWritten(r: StoredEmployee, items: seq<(Field, Option<string>)>): (r': StoredEmployee)
    ensures r'.id == r.id && r'.createdAt == r.createdAt && r'.updatedAt == r.updatedAt
    ensures forall f :: !Names(items, f) ==> StoredGet(r', f) == StoredGet(r, f)
    decreases |items|
  {
    if items == [] then r
    else ApplyDumpAsWritten(SetAttrAsWritten(r, items[0].0, items[0].1), items[1..])
  }

  /**
    What the source's setattr loop does when no field is named twice: every named field
    holds its entry's value, None included; every other field, the id and the timestamps
    are kept.
   */
  lemma {:induction false} ApplyDumpAsWrittenEffect(r: StoredEmployee, items: seq<(Field, Option<string>)>)
    requires DistinctFields(items)
    ensures forall i :: 0 <= i < |items| ==>
      StoredGet(ApplyDumpAsWritten(r, items), items[i].0) == items[i].1
    decreases |items|
  {
    if items != [] {
      var r' := SetAttrAsWritten(r, items[0].0, items[0].1);
      var rest := items[1..];
      ApplyDumpAsWrittenEffect(r', rest);
      assert !Names(rest, items[0].0) by {
        forall i | 0 <= i < |rest| ensures rest[i].0 != items[0].0 {
          assert rest[i] == items[i + 1];
        }
      }
      forall i | 1 <= i < |items| ensures items[i] == rest[i - 1] { }
    }
  }

  /**
    The update as the source runs it, for every record and patch: a supplied field takes
    the supplied value, an explicit null included; an unsupplied field keeps its string;
    the id and the timestamps are kept.
   */
  lemma AsWrittenUpdate(e: Employee, p: EmployeeUpdate)
    ensures var r := ApplyDumpAsWritten(Stored(e), DumpAsWritten(p));
      r.id == e.id && r.createdAt == e.createdAt && r.updatedAt == e.updatedAt
    ensures forall f :: Supplied(p, f).Some? ==>
      StoredGet(ApplyDumpAsWritten(Stored(e), DumpAsWritten(p)), f) == Supplied(p, f).value
    ensures forall f :: Supplied(p, f).None? ==>
      StoredGet(ApplyDumpAsWritten(Stored(e), DumpAsWritten(p)), f) == Some(Get(e, f))
  {
    var items := DumpAsWritten(p);
    ApplyDumpAsWrittenEffect(Stored(e), items);
    forall f | Supplied(p, f).Some?
      ensures StoredGet(ApplyDumpAsWritten(Stored(e), items), f) == Supplied(p, f).value
    {
      var i :| 0 <= i < |items| && items[i].0 == f;
    }
  }

  /** How `to_dict` renders a field that may hold None. */
  function TextOrNull(v: Option<string>): Value
  {
    if v.Some? then Text(v.value) else Null
  }

  /** `Employee.to_dict` of a stored record: a field holding None becomes a None value. */
  function StoredToDict(r: StoredEmployee): (d: map<string, Value>)
    ensures d.Keys == EMPLOYEE_KEYS
    ensures d["first_name"] == TextOrNull(r.firstName) && d["last_name"] == TextOrNull(r.lastName)
    ensures d["office_name"] == TextOrNull(r.officeName) && d["job_title"] == TextOrNull(r.jobTitle)
  {
    map[
      "id" := Text(r.id),
      "first_name" := TextOrNull(r.firstName),
      "last_name" := TextOrNull(r.lastName),
      "office_name" := TextOrNull(r.officeName),
      "job_title" := TextOrNull(r.jobTitle),
      "created_at" := Time(r.createdAt),
      "updated_at" := Time(r.updatedAt)]
  }

  /** The update body `{"first_name": null}`: first_name supplied as an explicit null. */
  const NULL_FIRST_NAME := EmployeeUpdate(Some(None), None, None, None)

  /**
    As the source runs it, the patch `{"first_name": null}` overwrites the stored first
    name with None, so the record has changed, and the response built from its `to_dict`
    no longer validates.
   */
  lemma ExplicitNullBreaksResponse(e: Employee)
    ensures var r := ApplyDumpAsWritten(Stored(e), DumpAsWritten(NULL_FIRST_NAME));
      r.firstName.None? && r != Stored(e) && ResponseOf(StoredToDict(r)).None?
  {
    ExplicitNullIsDumped();
    var r := ApplyDumpAsWritten(Stored(e), DumpAsWritten(NULL_FIRST_NAME));
    assert r == SetAttrAsWritten(Stored(e), FirstName, None);
    assert StoredToDict(r)["first_name"] == Null;
  }

  /** The source's loop over a dump of strings does what the corrected loop does. */
  lemma {:induction false} ApplyDumpOfText(e: Employee, items: seq<(Field, string)>,
      dump: seq<(Field, Option<string>)>)
    requires |dump| == |items|
    requires forall i :: 0 <= i < |items| ==> dump[i] == (items[i].0, Some(items[i].1))
    ensures ApplyDumpAsWritten(Stored(e), dump) == Stored(ApplyItems(e, items))
    decreases |items|
  {
    if items != [] {
      var f, t := items[0].0, items[0].1;
      assert SetAttrAsWritten(Stored(e), f, Some(t)) == Stored(SetAttr(e, f, t));
      ApplyDumpOfText(SetAttr(e, f, t), items[1..], dump[1..]);
    }
  }

  /**
    On a patch without explicit nulls, the update as the source runs it and the
    corrected merge leave the same record.
   */
  lemma AsWrittenAgreesWithoutNulls(e: Employee, p: EmployeeUpdate)
    requires forall f :: !SuppliesNull(p, f)
    ensures ApplyDumpAsWritten(Stored(e), DumpAsWritten(p)) == Stored(ApplyPatch(e, p))
  {
    DumpsAgreeWithoutNulls(p);
    ApplyDumpOfText(e, SuppliedFields(p), DumpAsWritten(p));
    ApplyItemsIsPatch(e, p);
  }
}
