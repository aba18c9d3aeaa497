# Employee store

A Dafny model of the in-memory employee store of a small employee-management
web service: the `Database` class of `app/database.py` and the record shapes of
`app/models.py` that it works on.

The store keeps an ordered list of `Employee` records. It offers five operations:

- create (`add_employee`): rejects a duplicate id, otherwise appends a new record whose `created_at` and `updated_at` are the same instant;
- lookup (`get_employee_by_id`): a linear scan that returns the first record with the id, or nothing;
- partial update (`update_employee`): writes only the fields the caller supplied, then refreshes `updated_at`;
- delete (`delete_employee`): removes the record and reports whether it was there;
- seeding (`init_sample_data`): adds four fixed records, and only when the store is empty.

Layout:

- `wrappers.dfy`: module `Wrappers`, which holds the `Option` type.
- `models.dfy`: module `Models`, the record shapes.
  - `EmployeeCreate`, `Employee` and `EmployeeResponse` are datatypes.
  - `EmployeeUpdate` is a presence-tracking patch. Each field is an `Option<Option<string>>`: the outer layer says whether the field was supplied, the inner layer is the supplied `Optional[str]` value.
  - The module also holds the model of pydantic's `model_dump(exclude_unset=True)`, the `setattr` loop, the field-by-field merge that specifies that loop, and `to_dict` with the response built from it.
- `database.dfy`: module `Database`.
  - It first gives each operation as a function on `seq<Employee>` (`Inserted`, `Lookup`, `Patched`, `Removed`, `Seeded`) and proves the store's properties about those functions.
  - It then gives the class `Database`, with field `employees: seq<Employee>` and invariant `Valid()`: ids are pairwise distinct. The constructor establishes `Valid()` and every method keeps it. Each method is proved to change `employees` exactly as its function says.

The clock is a parameter: every operation that reads `datetime.utcnow()` takes `now: Instant` instead.
The `ValueError` of a duplicate create becomes `Failure(DuplicateId(id))`.

## Model

| member | source | states |
|---|---|---|
| `Models.NewEmployee` | app/database.py:17-26 | the new record carries exactly the input's id and four strings, and `created_at == updated_at == now` |
| `Models.SetAttr` | app/database.py:46 | `setattr` sets the named field to the value; every other field, the id and both timestamps are unchanged |
| `Models.DumpOf` | app/database.py:44 | the dump over a field list has one entry per supplied field, each with the supplied value; fields are never repeated |
| `Models.DumpAsWritten` | app/database.py:44 | `model_dump(exclude_unset=True)` names exactly the supplied fields, including those supplied as null, each once, with the supplied value |
| `Models.ExplicitNullIsDumped` | app/database.py:44 | a patch that supplies `first_name` as null dumps to `[(first_name, None)]` |
| `Models.Stored` | app/models.py:34-42 | a well-typed record seen as the dataclass instance: every patchable field holds its string, and id and timestamps are the same |
| `Models.SetAttrAsWritten` | app/database.py:46 | unchecked `setattr` stores the given value, None included, in the named field; other fields, the id and the timestamps are unchanged |
| `Models.ApplyDumpAsWritten` | app/database.py:44-46 | the source's setattr loop over its dump never touches id or timestamps, and leaves every field the dump does not name as it was |
| `Models.ApplyDumpAsWrittenEffect` | app/database.py:45-46 | the source's setattr loop over entries with distinct fields leaves each named field holding its entry's value, None included |
| `Models.AsWrittenUpdate` | app/database.py:44-46 | for every record and patch, the source's update writes each supplied value into its field, an explicit null included, keeps every unsupplied field's string, and keeps the id and timestamps |
| `Models.StoredToDict` | app/models.py:44-53 | `to_dict` of a stored record has exactly the seven attribute keys, and a field holding None becomes a None value |
| `Models.ExplicitNullBreaksResponse` | app/database.py:44-46 | as the source runs it, `{"first_name": null}` stores None as first name, so the record has changed and the response built from its `to_dict` fails validation |
| `Models.ApplyDumpOfText` | app/database.py:45-46 | on a dump whose entries all carry strings, the source's loop leaves the same record as the corrected loop |
| `Models.AsWrittenAgreesWithoutNulls` | app/database.py:44-46 | on a patch without explicit nulls, the update as the source runs it and the corrected merge leave the same record |
| `Models.TextOf` | app/database.py:44 | the corrected dump over a field list has one entry per field supplied with a string, and never repeats a field |
| `Models.SuppliedFields` | app/database.py:44 | the corrected dump names exactly the fields supplied with a string, each once, with that string |
| `Models.DumpsAgreeWithoutNulls` | app/database.py:44 | on a patch with no explicit null, the corrected dump equals the source's dump entry by entry |
| `Models.ApplyItems` | app/database.py:45-46 | the setattr loop over string entries never touches id or timestamps and leaves every field it does not name as it was |
| `Models.ApplyItemsEffect` | app/database.py:45-46 | the setattr loop over distinct fields leaves each named field holding its entry's value; unnamed fields, the id and the timestamps are kept |
| `Models.ApplyPatch` | app/database.py:44-46 | merging a patch never touches id or timestamps; a supplied field takes the supplied string; an unsupplied field keeps its value |
| `Models.ApplyItemsIsPatch` | app/database.py:44-46 | the setattr loop over the corrected dump yields exactly the field-by-field merge |
| `Models.EmptyPatchIsIdentity` | app/models.py:21-25 | a patch that supplies nothing leaves the record unchanged |
| `Models.ApplyPatchIdempotent` | app/database.py:45-46 | applying the same patch twice equals applying it once |
| `Models.ToDict` | app/models.py:44-53 | `to_dict` has exactly the seven attribute keys; the two timestamp keys hold times and the other five hold strings |
| `Models.ResponseOf` | app/models.py:28-31 | on a dictionary of strings, times and None, such as `to_dict` builds, `EmployeeResponse(**d)` validates exactly when every response field is present with the right kind; None is not a string |
| `Models.ResponseKeysAreEmployeeKeys` | app/models.py:28-31 | the response's field set, EmployeeBase plus id and both timestamps, is exactly the Employee field set |
| `Models.ResponseOfToDict` | app/models.py:44-53 | a response built from `to_dict` always validates and equals the record field by field |
| `Database.FirstIndex` | app/database.py:33-37 | the scan returns None exactly when no record has the id; otherwise it returns a position holding the id with no earlier position holding it |
| `Database.FirstIndexAt` | app/database.py:34-36 | the scan's answer is the unique position holding the id with no earlier match |
| `Database.Lookup` | app/database.py:33-37 | lookup is None exactly when the id is absent; otherwise it returns a stored record carrying the id |
| `Database.Revised` | app/database.py:44-48 | the updated record keeps id and `created_at`, has `updated_at == now`, holds every supplied string and keeps every unsupplied field |
| `Database.Inserted` | app/database.py:13-28 | adding keeps ids distinct, and afterwards the input's id is present |
| `Database.InsertFresh` | app/database.py:17-27 | adding an input whose id no record carries appends exactly its new record |
| `Database.InsertedShape` | app/database.py:13-28 | a present id leaves the list unchanged; otherwise the new record is appended at the end and the earlier records are kept |
| `Database.Patched` | app/database.py:39-49 | updating keeps the length, every id and every `created_at`, and every record except the one found; ids stay distinct |
| `Database.Removed` | app/database.py:51-56 | deleting shrinks the list by one exactly when the id is present; it only removes records; ids stay distinct |
| `Database.SampleData` | app/database.py:63-98 | the four adds of seeding produce records with distinct ids |
| `Database.SampleInputIdsDistinct` | app/database.py:63-98 | the four fixed inputs carry pairwise distinct ids |
| `Database.SampleContents` | app/database.py:63-98 | each of the four adds succeeds: the seeded list holds one record per fixed input, in order, each with `created_at == updated_at == now` |
| `Database.Seeded` | app/database.py:58-61 | seeding leaves a non-empty store unchanged; an empty store gets four records with distinct ids |
| `Database.LookupAfterInsert` | app/database.py:13-37 | after a successful add, looking up the new id returns the new record |
| `Database.LookupStableUnderInsert` | app/database.py:13-28 | adding does not change what an existing id finds |
| `Database.LookupStableUnderPatch` | app/database.py:39-49 | updating one id does not change what any other id finds |
| `Database.LookupAfterPatch` | app/database.py:39-49 | after an update, the id finds the revised record |
| `Database.LookupStableUnderRemove` | app/database.py:51-56 | deleting one id does not change what any other id finds |
| `Database.RemovedShape` | app/database.py:51-56 | delete removes exactly the first record with the id and keeps the rest in order, as a slice equation |
| `Database.RemovedAt` | app/database.py:51-56 | after a delete, each position holds the record from the same position before the removed one, or from the next position after it |
| `Database.RemoveTwice` | app/database.py:51-56 | with distinct ids, the id is gone after a delete, and a second delete changes nothing |
| `Database.EmptyPatchTouchesOnlyTimestamp` | app/database.py:44-49 | an update with an empty patch changes only `updated_at` of the found record |
| `Database.SeedTwice` | app/database.py:58-61 | seeding twice equals seeding once, so an empty store ends with 4 records, not 8 |
| `Database.SampleIds` | app/database.py:63-98 | the seeded store holds E001, E002, E003, E004 in that order |
| `Database.PatchRecord` | app/database.py:44-46 | the setattr loop over the supplied fields returns the field-by-field merge of the patch |
| `Database.Database.constructor` | app/database.py:10-11 | a new store is empty, and its ids are trivially distinct |
| `Database.Database.AddEmployee` | app/database.py:13-28 | a duplicate id fails with `DuplicateId` and leaves the list unchanged; otherwise the new record is returned and appended at the end |
| `Database.Database.GetAllEmployees` | app/database.py:30-31 | returns all records in insertion order |
| `Database.Database.IndexOf` | app/database.py:33-37 | the scan loop returns the first position holding the id, or None |
| `Database.Database.GetEmployeeById` | app/database.py:33-37 | returns the first record with the id, or None |
| `Database.Database.UpdateEmployee` | app/database.py:39-49 | an absent id returns None and changes nothing; otherwise the found record is revised in place and returned |
| `Database.Database.IndexOfRecord` | app/database.py:55 | `list.remove` finds the first record equal to the given one |
| `Database.Database.DeleteEmployee` | app/database.py:51-56 | returns True exactly when the id was present; the list afterwards is the list with that record removed |
| `Database.Database.InitSampleData` | app/database.py:58-98 | a non-empty store is left alone; an empty store receives E001 to E004 |

## Findings

| source | as written | input that shows it | evidently intended | confidence | as-written member | corrected member |
|---|---|---|---|---|---|---|
| app/database.py:44-46 | `model_dump(exclude_unset=True)` keeps a field the caller set to null. The `setattr` loop then writes `None` into a field declared `str` (app/models.py:37-40). Building `EmployeeResponse` from that record then fails validation, but the store has already changed. | a PUT body `{"first_name": null}` for an existing id | a text field never holds None. Two fixes give that: reject a null when `EmployeeUpdate` is validated (app/models.py:21-25), or skip it as if unset in `update_employee`. Both agree with the source on every patch without a null. Nothing in the source settles which one was meant. The model takes the second because it changes only the store's own update; the first changes request validation, which is outside this model | medium, not executed | `Models.DumpAsWritten`, `Models.ApplyDumpAsWritten`, `Models.AsWrittenUpdate`, `Models.ExplicitNullBreaksResponse` | `Models.SuppliedFields`, `Models.DumpsAgreeWithoutNulls`, `Models.AsWrittenAgreesWithoutNulls` |

The model's update (`Models.ApplyPatch`, `Models.ApplyItemsIsPatch`, `Database.Revised`, `Database.PatchRecord`, `Database.Database.UpdateEmployee`) uses the corrected dump. It therefore writes only fields supplied with a string. On every patch without an explicit null this is the source's behaviour (`Models.AsWrittenAgreesWithoutNulls`).

## Left out

- HTTP routing in app/employees.py and the application wiring in main.py: they only map None or False to 404 and the duplicate-id error to 400.
- Clock reads: `datetime.utcnow()` becomes the `now` parameter. Datetime arithmetic and formatting are not modelled.
- Database.Database.InitSampleData: takes one `now` for all four records. The source reads the clock once per `add_employee` call, so its four timestamps may differ slightly.
- Aliasing: the source returns live handles. `get_all_employees` returns the list itself, and `add_employee`, `get_employee_by_id` and `update_employee` return the stored object. The model returns values, and an update replaces the record at its position, so later changes made through an old handle are not modelled.
- The text of the duplicate-id error message: the error carries only the id.
- Pydantic validation of the create and update inputs, for example that required fields are strings. The model takes already-parsed inputs.
- Concurrency around the module-level `db` singleton: the model is sequential.
- Database.Database.UpdateEmployee: writes only fields supplied with a string. The source also writes explicit nulls (see Findings).
- Models.ApplyPatch: a field supplied as an explicit null is treated as unsupplied and keeps its value. The source writes None into it (see Findings).
- Models.ApplyItemsIsPatch: relates the loop over the corrected dump, not over the source's dump with its nulls, to the merge. For the source's dump see `Models.AsWrittenAgreesWithoutNulls`.
- Database.Revised: a field supplied as an explicit null is treated as unsupplied and keeps its value. The source writes None into it (see Findings).
- Database.PatchRecord: loops over the corrected dump, so it skips an explicit null that the source's loop writes (see Findings).
- Models.ResponseOf: pydantic's lax coercions are not modelled. For example, an ISO-8601 string given for `created_at` is parsed into a datetime by the source but rejected by the model. `to_dict` only ever passes real timestamps, so `Models.ResponseOfToDict` is unaffected.
