# Employee agenda, modelled in Dafny

This project models the employee agenda of the `g-challenge` repository. The agenda is an
in-memory registry of three dictionaries keyed by id: employees, jobs and departments. The
model covers:

- the current `EmployeeAgenda` (`src/app/agenda/employee_agenda.py`). Its batch insert
  `add_employees` runs four checks (duplicate ids in the batch, ids already stored, job
  consistency, department consistency) and writes only when all of them pass.
- the older `EmployeeAgenda` (`src/app/employee_agenda.py`). It has single-item inserts and a
  batch `add` that validates three lists and then commits them item by item.
- the loader `EmployeeAgendaDataLoader.run` (`src/app/loader/agenda_data_loader.py`). It offers
  each batch to `add_employees`, logs one message per batch, and carries on after a failure.
- the validated value objects `Job`, `Department`, the domain `Employee`, and the earlier
  `Employee` of `src/app/employee/employee.py`.

How each part is modelled:

- **Agendas and loader.** Each agenda is a `class` with three `map` fields, and its methods
  loop as the source does. Every method is proved equal to a function on values, for the
  call's new state and its outcome:
  - `Agenda.Submit` (built from `Check` and `Apply`) for `add_employees`;
  - `LegacyAgenda.AddAll` (built from `Validate` and `CommitAll`) for `add`;
  - `Loader.Replay` for `run`.

  The properties of the source are proved as lemmas about these functions, in
  `agenda_properties.dfy`, `legacy_agenda_properties.dfy` and `loader_properties.dfy`.
- **Exceptions.** A raised `ValueError` is a `Fail(error)` outcome. The error datatype has
  one constructor per distinct error. Each error value carries the offending id, name or
  date; `DuplicateIds` carries nothing.
- **Job identity.** `Job` defines no equality, so `job_in_agenda != job` compares object
  identity. The model makes `Job` a class with constant fields, whose `==` is reference
  equality.
- **Department.** `Department` defines `__eq__` over id and name, so it is a datatype.
- **Two employee shapes.** The domain `Employee` class takes integer `job_id` and
  `department_id`. The older agenda stores that shape (`FlatEmployee`). The current agenda
  reads `employee.job` and `employee.department`, and its tests pass `Job` and `Department`
  objects, so the current agenda stores `Employee` records that embed them. Both shapes are
  built through the same six guards, in the same order.

Behaviour the proofs bring out:

- **The current agenda is atomic.** Every failing check leaves all three dictionaries as they
  were.
- **Stored entries are never overwritten.** Stored jobs and departments are never replaced.
- **A batch is not checked against itself for jobs or departments.** Two new employees with
  the same new job id and different job names are both accepted. The later job is stored, and
  the first employee then embeds a job that is not the stored one
  (`AgendaProperties.InBatchJobClashUndetected`).
- **Job checks use identity.** A stored job id arriving as a different object is rejected
  even when id and name agree (`AgendaProperties.JobObjectMismatchRejected`).
  - `Department` defines a structural `__eq__`; `Job` defines none. So a fresh `Job` with
    the same id and name as the stored one is still a different job.
  - Under identity, the department-inconsistency test (`tests/test_employee_agenda.py:79`)
    builds a fresh `Job(2, ...)` object. So the call raises a `ValueError` at the job check,
    before the department is compared, which is what the test expects.
- **The older `add` does not fully roll back.** Its docstring promises rollback, but this
  only covers the validation loops. If the job, department or employee list repeats an id,
  the commit loop raises after earlier items are stored
  (`LegacyAgendaProperties.RepeatedJobIdBreaksRollback`,
  `LegacyAgendaProperties.RepeatedDepartmentIdBreaksRollback`,
  `LegacyAgendaProperties.RepeatedEmployeeIdBreaksRollback`).

## Model

| member | source | states |
|---|---|---|
| Text.Strip | src/app/domain/job.py:17 | the stripped name is empty exactly when every character is whitespace; otherwise it starts and ends with a non-space |
| Text.TrimStart | src/app/domain/job.py:17 | helper of `Text.Strip` (the source calls only `strip()`): the result is a suffix of the input, everything dropped is whitespace, and it is empty exactly for a blank input |
| Text.TrimEnd | src/app/domain/job.py:17 | helper of `Text.Strip` (the source calls only `strip()`): the result is a prefix of the input, everything dropped is whitespace, and it is empty exactly for a blank input |
| Guards.FailIfNegative | src/app/domain/job.py:20-23 | passes exactly when `id >= 0` (so 0 is accepted); otherwise names the id |
| Guards.FailIfEmpty | src/app/domain/job.py:15-18 | passes exactly when the name is not blank; otherwise names the name |
| Guards.FailIfNotIsoFormat | src/app/domain/employee.py:41-47 | passes exactly when the date predicate holds; otherwise names the date |
| Guards.IdAndNameGuard | src/app/domain/job.py:9-10 | passes exactly for a non-negative id and a non-blank name; a negative id is reported before a blank name |
| Jobs.Job.constructor | src/app/domain/job.py:12-13 | `id` and `name` are the constructor arguments |
| Jobs.NewJob | src/app/domain/job.py:5-13 | succeeds exactly for a non-negative id and non-blank name, reports the id first, and returns a fresh object, so a job never equals a previously existing one |
| Departments.NewDepartment | src/app/domain/department.py:8-13 | succeeds exactly for a non-negative id and non-blank name, reports the id first, and keeps both arguments |
| Departments.Eq | src/app/domain/department.py:15-16 | `__eq__` holds exactly when id and name are both equal |
| Departments.Ne | src/app/domain/department.py:18-19 | `__ne__` is exactly the negation of `__eq__` |
| Employees.EmployeeGuard | src/app/domain/employee.py:14-20 | passes exactly when the date parses, the three ids are non-negative and both names are not blank; an unparseable date is reported first, then a negative id |
| Employees.NewFlatEmployee | src/app/domain/employee.py:5-27 | succeeds exactly when every guard passes, and every accessor then returns its argument |
| Employees.NewEmployee | src/app/domain/employee.py:5-27 | the same guards for the record with an embedded job and department, whose ids are the guarded ones |
| LegacyEmployees.NewEmployee | src/app/employee/employee.py:5-19 | succeeds exactly for a parseable date, a non-negative id and two non-blank names, in that order of reporting, and keeps the arguments |
| Keyed.PutAll | src/app/agenda/employee_agenda.py:18-20 | writing a list by id adds exactly its keys, keeps every other entry, and stores, for each key, the last item with that key |
| Keyed.PutAllKeysMatch | src/app/agenda/employee_agenda.py:18-28 | writing items under their own ids keeps every entry under its own id |
| Keyed.KeySetSize | src/app/agenda/employee_agenda.py:76-79 | a list has at most as many distinct ids as items, and exactly as many when its ids are pairwise distinct |
| Keyed.PutAllSize | src/app/agenda/employee_agenda.py:22-24 | a dictionary grows by the number of written ids it did not hold; by the list length for distinct new ids |
| Keyed.FirstPresent | src/app/agenda/employee_agenda.py:45-47 | the index at which a loop that raises on a stored id stops: every earlier id is absent and this one is present |
| Keyed.FirstConflict | src/app/agenda/employee_agenda.py:52-56 | the index at which the consistency loop raises: no earlier item conflicts, this one is stored under its id as a different value |
| Keyed.Absent | src/app/agenda/employee_agenda.py:52-58 | every queued item is an item of the list with an unstored id, every list item with an unstored id is queued, and the queued ids are exactly the list's unstored ids |
| Keyed.AbsentKeepsLast | src/app/agenda/employee_agenda.py:57-58 | the last item with a given unstored id is also the last one queued with it, so it is the one written |
| Keyed.PutAbsentSize | src/app/agenda/employee_agenda.py:71-72 | writing the queued items adds exactly the list's ids, growing the dictionary by the number of those not stored before |
| Agenda.Registry.Size | src/app/agenda/employee_agenda.py:81-83 | `size()` as the counts (employees, jobs, departments); how one call changes them is `AgendaProperties.SubmitSize` |
| Agenda.Invariant | src/app/agenda/employee_agenda.py:18-28 | every entry is stored under its own id, and every stored employee's job and department ids are stored; the empty agenda has it and every call keeps it (`Agenda.ApplyKeepsInvariant`, `AgendaProperties.SubmitKeepsInvariant`) |
| Agenda.Ids | src/app/agenda/employee_agenda.py:77 | `[item.id for item in items]`: one id per batch employee, in batch order; `Agenda.HasDuplicateIds` decides duplicates on it and `LoaderProperties.OneMessagePerBatch` puts it in each message |
| Agenda.BatchJobs | src/app/agenda/employee_agenda.py:50 | the list `jobs`: one job per batch employee, in batch order; its ids are the batch's job ids (`AgendaProperties.BatchJobIdsAreKeys`) |
| Agenda.BatchDepartments | src/app/agenda/employee_agenda.py:61 | the list `departments`: one department per batch employee, in batch order; its ids are the batch's department ids (`AgendaProperties.BatchDepartmentIdsAreKeys`) |
| Agenda.HasDuplicateIds | src/app/agenda/employee_agenda.py:76-79 | `len(ids) != len(set(ids))` holds exactly when two employees of the batch share an id |
| Agenda.Check | src/app/agenda/employee_agenda.py:44-69 | the four checks in source order, the first failure naming the error; it passes exactly under the conditions of `AgendaProperties.CheckPassesIff`, and each failure is pinned by the `AgendaProperties` rejection lemmas |
| Agenda.JobsToAdd | src/app/agenda/employee_agenda.py:51-58 | `jobs_to_be_added`: the contract of `Keyed.Absent` gives exactly the batch jobs whose id is not stored, with those ids; it does not state their order, which matters only through which job is written last (`Keyed.AbsentKeepsLast`); what writing them does is `AgendaProperties.JobKeysAfterApply` and `AgendaProperties.LatestJobWins` |
| Agenda.DepartmentsToAdd | src/app/agenda/employee_agenda.py:62-69 | `departments_to_be_added`: by the contract of `Keyed.Absent`, exactly the batch departments whose id is not stored, with those ids; the order is not stated and matters only through `Keyed.AbsentKeepsLast`; see `AgendaProperties.DepartmentKeysAfterApply` and `AgendaProperties.LatestDepartmentWins` |
| Agenda.Apply | src/app/agenda/employee_agenda.py:71-73 | the write phase: new jobs, new departments, then every employee; its effect is stated by `AgendaProperties.SuccessStoresEveryEmployee`, `AgendaProperties.JobKeysAfterApply`, `AgendaProperties.DepartmentKeysAfterApply` and `Agenda.ApplyKeepsInvariant` |
| Agenda.Submit | src/app/agenda/employee_agenda.py:39-73 | `add_employees` on a value: the state is unchanged when `Check` fails and is `Apply` of it otherwise; `Agenda.EmployeeAgenda.AddEmployees` is proved equal to it |
| Agenda.ApplyKeepsInvariant | src/app/agenda/employee_agenda.py:71-73 | a write phase after passing checks keeps every entry under its own id and every employee's job and department ids stored |
| Agenda.EmployeeAgenda.constructor | src/app/agenda/employee_agenda.py:13-16 | the agenda starts with three empty dictionaries |
| Agenda.EmployeeAgenda.GetJob | src/app/agenda/employee_agenda.py:30-31 | returns the stored job, or none exactly when the id is not stored |
| Agenda.EmployeeAgenda.GetDepartment | src/app/agenda/employee_agenda.py:33-34 | returns the stored department, or none exactly when the id is not stored |
| Agenda.EmployeeAgenda.GetEmployee | src/app/agenda/employee_agenda.py:36-37 | returns the stored employee, or none exactly when the id is not stored |
| Agenda.EmployeeAgenda.Size | src/app/agenda/employee_agenda.py:81-83 | the object's `size()` is the `Size` of its state, so `AgendaProperties.SubmitSize` applies to it |
| Agenda.EmployeeAgenda.AddJobs | src/app/agenda/employee_agenda.py:18-20 | the job dictionary becomes the old one with the list written in order; the other two are unchanged |
| Agenda.EmployeeAgenda.AddDepartments | src/app/agenda/employee_agenda.py:26-28 | the department dictionary becomes the old one with the list written in order; the other two are unchanged |
| Agenda.EmployeeAgenda.StoreEmployees | src/app/agenda/employee_agenda.py:22-24 | the employee dictionary becomes the old one with the batch written in order; the other two are unchanged |
| Agenda.EmployeeAgenda.FindStoredEmployee | src/app/agenda/employee_agenda.py:45-47 | returns the index of the first batch employee whose id is stored, or the batch length |
| Agenda.EmployeeAgenda.CheckJobs | src/app/agenda/employee_agenda.py:50-58 | returns the first job stored under its id as a different object and, when there is none, the queue `Keyed.Absent` computes |
| Agenda.EmployeeAgenda.CheckDepartments | src/app/agenda/employee_agenda.py:61-69 | the same for departments, compared with `__ne__` |
| Agenda.EmployeeAgenda.AddEmployees | src/app/agenda/employee_agenda.py:39-73 | new state and outcome are `Submit` of the old state, the invariant is kept, and on any failure all three dictionaries are unchanged |
| AgendaProperties.CheckPassesIff | src/app/agenda/employee_agenda.py:44-69 | a batch is written exactly when its ids are distinct and unstored, every stored job id holds the very same job object, and every stored department id holds an equal department |
| AgendaProperties.DuplicateIdsRejected | src/app/agenda/employee_agenda.py:76-79 | two batch employees with one id: the call raises the duplicate-ids error and the agenda is unchanged |
| AgendaProperties.StoredIdRejected | src/app/agenda/employee_agenda.py:45-47 | a batch employee whose id is stored: the call raises, the agenda (so the stored employee) is unchanged, and without duplicates the error names a stored id |
| AgendaProperties.JobObjectMismatchRejected | src/app/agenda/employee_agenda.py:52-56 | a batch job stored under its id as another object makes the call raise with nothing changed |
| AgendaProperties.JobNameClashRejected | src/app/agenda/employee_agenda.py:55-56 | a stored job id arriving with a different name is rejected with nothing changed |
| AgendaProperties.DepartmentNameClashRejected | src/app/agenda/employee_agenda.py:63-67 | a stored department id arriving with a different name is rejected with nothing changed |
| AgendaProperties.SuccessStoresEveryEmployee | src/app/agenda/employee_agenda.py:73 | after a successful call every batch employee is stored under its id as the same record, earlier employees are untouched, and the count grows by the batch length |
| AgendaProperties.JobKeysAfterApply | src/app/agenda/employee_agenda.py:50-58 | the write phase leaves the stored job ids equal to the old ones plus the batch's, growing the count by the unstored ones |
| AgendaProperties.DepartmentKeysAfterApply | src/app/agenda/employee_agenda.py:61-69 | the same for department ids |
| AgendaProperties.SuccessJobAndDepartmentCounts | src/app/agenda/employee_agenda.py:71-72 | after a successful call the job count grows by the number of distinct batch job ids not stored before; the same for departments |
| AgendaProperties.SubmitSize | src/app/agenda/employee_agenda.py:81-83 | `size()` is unchanged by a call that raises; after a successful call the employee count grows by the batch length and the job and department counts by the batch's unstored ids |
| AgendaProperties.StoredEntriesNeverOverwritten | src/app/agenda/employee_agenda.py:52-58 | no call, successful or not, replaces a stored job, department or employee |
| AgendaProperties.LatestJobWins | src/app/agenda/employee_agenda.py:18-20 | among batch entries with the same new job id, the last one is the job stored |
| AgendaProperties.LatestDepartmentWins | src/app/agenda/employee_agenda.py:26-28 | among batch entries with the same new department id, the last one is the department stored |
| AgendaProperties.InBatchJobClashUndetected | src/app/agenda/employee_agenda.py:50-58 | two new employees with one new job id and different names are accepted, and the first employee's job is not the stored one |
| AgendaProperties.SubmitKeepsInvariant | src/app/agenda/employee_agenda.py:39-73 | every call keeps the agenda's invariant |
| AgendaProperties.ThreeEmployeesScenario | tests/test_employee_agenda.py:13-24 | three employees with ids 1, 2, 3, jobs 2, 2, 3 and department 1, into an empty agenda, are accepted and give sizes (3, 2, 1) |
| LegacyAgenda.Store.Size | src/app/employee_agenda.py:72-74 | `size()` as the counts (employees, jobs, departments); `LegacyAgendaProperties.InsertSize` and `LegacyAgendaProperties.DistinctListsCommitEverything` state how they change |
| LegacyAgenda.Invariant | src/app/employee_agenda.py:18-40 | every entry is stored under its own id, and every stored employee's job and department ids are stored; each insert keeps it (the contracts of `LegacyAgenda.InsertEmployee`, `LegacyAgenda.InsertJob`, `LegacyAgenda.InsertDepartment`), and so does every `add` (`LegacyAgendaProperties.AddKeepsInvariant`) |
| LegacyAgenda.InsertEmployee | src/app/employee_agenda.py:18-27 | stores the employee exactly when its id is new and its job and department ids are stored, reports those failures in that order with nothing changed, and keeps the invariant |
| LegacyAgenda.InsertJob | src/app/employee_agenda.py:29-32 | stores the job exactly when its id is new; otherwise raises with nothing changed |
| LegacyAgenda.InsertDepartment | src/app/employee_agenda.py:37-40 | stores the department exactly when its id is new; otherwise raises with nothing changed |
| LegacyAgenda.EmployeeCheck | src/app/employee_agenda.py:57-63 | an employee passes validation exactly when its id is new and its job and department ids are each stored or listed |
| LegacyAgenda.FirstUnplaceable | src/app/employee_agenda.py:57-63 | the index at which the employee validation loop raises: every earlier employee passes and this one fails |
| LegacyAgenda.Validate | src/app/employee_agenda.py:51-63 | the three validation loops in order, the first failing check naming the error; it passes exactly under the conditions of `LegacyAgendaProperties.ValidatePassesIff` |
| LegacyAgenda.CommitAll | src/app/employee_agenda.py:65-70 | one commit loop: inserts in order and stops at the first raise, keeping earlier inserts; pinned by `LegacyAgendaProperties.CommitNewJobs` (and the department and employee versions) and the `Commit...StopsAt...` and `Commit...KeepsKeys` lemmas |
| LegacyAgenda.AddAll | src/app/employee_agenda.py:46-70 | `add` on a value: validation, then the three commit loops; `LegacyAgendaProperties.DistinctListsCommitEverything` gives its result for distinct lists and the three `Repeated...BreaksRollback` lemmas its partial writes |
| LegacyAgenda.CommitAllKeepsInvariant | src/app/employee_agenda.py:65-70 | a commit loop over inserts that keep the invariant keeps it too, even when it stops half-way |
| LegacyAgenda.EmployeeAgenda.constructor | src/app/employee_agenda.py:13-16 | the agenda starts with three empty dictionaries |
| LegacyAgenda.EmployeeAgenda.GetJob | src/app/employee_agenda.py:34-35 | returns the stored job, or none exactly when the id is not stored |
| LegacyAgenda.EmployeeAgenda.GetDepartment | src/app/employee_agenda.py:42-43 | returns the stored department, or none exactly when the id is not stored |
| LegacyAgenda.EmployeeAgenda.GetEmployee | src/app/employee_agenda.py:76-77 | returns the stored employee, or none exactly when the id is not stored |
| LegacyAgenda.EmployeeAgenda.Size | src/app/employee_agenda.py:72-74 | the object's `size()` is the `Size` of its state |
| LegacyAgenda.EmployeeAgenda.AddEmployee | src/app/employee_agenda.py:18-27 | new state and outcome are `InsertEmployee` of the old state, and the invariant is kept |
| LegacyAgenda.EmployeeAgenda.AddJob | src/app/employee_agenda.py:29-32 | new state and outcome are `InsertJob` of the old state |
| LegacyAgenda.EmployeeAgenda.AddDepartment | src/app/employee_agenda.py:37-40 | new state and outcome are `InsertDepartment` of the old state |
| LegacyAgenda.EmployeeAgenda.ValidateLists | src/app/employee_agenda.py:51-63 | the three validation loops return the outcome of `Validate` on the current state and change nothing |
| LegacyAgenda.EmployeeAgenda.CommitJobs | src/app/employee_agenda.py:65-66 | the job commit loop leaves the state and outcome of inserting the jobs in order, stopping at the first raise |
| LegacyAgenda.EmployeeAgenda.CommitDepartments | src/app/employee_agenda.py:67-68 | the same for the department commit loop |
| LegacyAgenda.EmployeeAgenda.CommitEmployees | src/app/employee_agenda.py:69-70 | the same for the employee commit loop |
| LegacyAgenda.EmployeeAgenda.Add | src/app/employee_agenda.py:46-70 | new state and outcome are `AddAll` of the old state, and the invariant is kept |
| LegacyAgendaProperties.ValidatePassesIff | src/app/employee_agenda.py:51-63 | validation passes exactly when no listed job or department id is stored and every listed employee has a new id and a stored-or-listed job and department |
| LegacyAgendaProperties.StoredJobRejected | src/app/employee_agenda.py:51-53 | a listed job whose id is stored: `add` raises `JobExists` and nothing is written |
| LegacyAgendaProperties.StoredDepartmentRejected | src/app/employee_agenda.py:54-56 | a listed department whose id is stored: `add` raises and nothing is written |
| LegacyAgendaProperties.UnplaceableEmployeeRejected | src/app/employee_agenda.py:57-63 | a listed employee with a stored id, or a job or department neither stored nor listed: `add` raises and nothing is written |
| LegacyAgendaProperties.AddKeepsInvariant | src/app/employee_agenda.py:22-27 | every `add`, even one that raises half-way, keeps every employee's job and department ids stored |
| LegacyAgendaProperties.CommitNewJobs | src/app/employee_agenda.py:65-66 | committing new jobs with distinct ids stores all of them without raising |
| LegacyAgendaProperties.CommitNewDepartments | src/app/employee_agenda.py:67-68 | committing new departments with distinct ids stores all of them without raising |
| LegacyAgendaProperties.CommitNewEmployees | src/app/employee_agenda.py:69-70 | committing new employees with distinct ids and stored jobs and departments stores all of them without raising |
| LegacyAgendaProperties.DistinctListsCommitEverything | src/app/employee_agenda.py:65-70 | when validation passes and each list has distinct ids, `add` succeeds, stores every listed item, and each count grows by its list's length |
| LegacyAgendaProperties.CommitListsBeforeEmployees | src/app/employee_agenda.py:65-68 | after validation with distinct job and department ids, both lists are stored in full before the employee loop, which then finds every employee's job and department |
| LegacyAgendaProperties.InsertSize | src/app/employee_agenda.py:18-40 | `size()` after one insert: the inserted kind's count grows by one when it passes, and nothing changes when it raises |
| LegacyAgendaProperties.NewKeysGrowBy | src/app/employee_agenda.py:74 | writing distinct ids none of which are stored grows the count by the list length |
| LegacyAgendaProperties.CommitJobsKeepsKeys | src/app/employee_agenda.py:65-66 | the job commit loop never removes a job id |
| LegacyAgendaProperties.CommitJobsStopsAtStored | src/app/employee_agenda.py:30-31 | the job commit loop raises `JobExists` on reaching an id already stored |
| LegacyAgendaProperties.CommitJobsStopsAtRepeat | src/app/employee_agenda.py:65-66 | the job commit loop raises `JobExists` when the list repeats an id |
| LegacyAgendaProperties.CommitDepartmentsKeepsKeys | src/app/employee_agenda.py:67-68 | the department commit loop never removes a department id and leaves the jobs alone |
| LegacyAgendaProperties.CommitDepartmentsStopsAtStored | src/app/employee_agenda.py:38-39 | the department commit loop raises `DepartmentExists` on reaching an id already stored |
| LegacyAgendaProperties.CommitDepartmentsStopsAtRepeat | src/app/employee_agenda.py:67-68 | the department commit loop raises `DepartmentExists` when the list repeats an id |
| LegacyAgendaProperties.CommitEmployeesKeepsKeys | src/app/employee_agenda.py:69-70 | the employee commit loop never removes an employee id and leaves jobs and departments alone |
| LegacyAgendaProperties.CommitEmployeesStopsAtStored | src/app/employee_agenda.py:20-21 | the employee commit loop raises on reaching an id already stored |
| LegacyAgendaProperties.CommitEmployeesStopsAtRepeat | src/app/employee_agenda.py:69-70 | the employee commit loop raises when the list repeats an id |
| LegacyAgendaProperties.RepeatedJobIdBreaksRollback | src/app/employee_agenda.py:47-48 | a job list repeating an id passes validation, `add` raises `JobExists`, and the first listed job, not stored before, is stored afterwards |
| LegacyAgendaProperties.RepeatedDepartmentIdBreaksRollback | src/app/employee_agenda.py:47-48 | a department list repeating an id passes validation; `add` raises `DepartmentExists` after storing every listed job and the first listed department, which was not stored before |
| LegacyAgendaProperties.RepeatedEmployeeIdBreaksRollback | src/app/employee_agenda.py:47-48 | an employee list repeating an id: `add` raises after storing every listed job and department and the first listed employee |
| Loader.Report | src/app/loader/agenda_data_loader.py:44-47 | the message carries the batch's ids in batch order, and is "Added" exactly when `add_employees` did not raise |
| Loader.Replay | src/app/loader/agenda_data_loader.py:42-47 | the agenda and the log after offering each batch in order; pinned by `LoaderProperties.OneMessagePerBatch`, `LoaderProperties.MessageTellsOutcome` and `LoaderProperties.ReplayAppend`, and `Loader.Run` is proved equal to it |
| Loader.Run | src/app/loader/agenda_data_loader.py:35-47 | the final agenda and the log are those of offering every batch in order, and the agenda's invariant is kept |
| Loader.Chunks | tests/test_employee_data_loader.py:17-22 | the batches are non-empty, at most `chunk_size` long, all but the last exactly that long, and concatenate back to the source list |
| Loader.ConcatCons | tests/test_employee_data_loader.py:21-22 | joining a batch in front of batches is that batch followed by their join |
| LoaderProperties.OneMessagePerBatch | src/app/loader/agenda_data_loader.py:42-47 | exactly one message per batch, message `i` carrying batch `i`'s ids |
| LoaderProperties.LogOfPrefix | src/app/loader/agenda_data_loader.py:42-47 | loading more batches only appends to the log |
| LoaderProperties.Step | src/app/loader/agenda_data_loader.py:42-47 | message `i` reports batch `i` offered to the agenda the first `i` batches left, and the agenda after it is that call's result |
| LoaderProperties.MessageTellsOutcome | src/app/loader/agenda_data_loader.py:43-47 | message `i` is "Added" exactly when batch `i` passes every check; a rejected batch logs its error and leaves the agenda as it was; an accepted one is written in full |
| LoaderProperties.ReplayAppend | src/app/loader/agenda_data_loader.py:42 | loading `bs` then `cs` gives the agenda and the log of loading `bs + cs` |
| LoaderProperties.RejectedBatchIsSkipped | src/app/loader/agenda_data_loader.py:46-47 | a rejected batch does not stop the loader: the final agenda is the one obtained by loading every other batch |
| LoaderProperties.ReplayKeepsInvariant | src/app/loader/agenda_data_loader.py:42-44 | loading keeps the agenda's invariant |
| LoaderProperties.StoredEntriesSurvive | src/app/loader/agenda_data_loader.py:42-44 | an employee, job or department stored before loading is still stored, unchanged, at the end |
| LoaderProperties.SubmitKeepsKeys | src/app/agenda/employee_agenda.py:71-73 | `add_employees` never removes a key |

## Left out

- **Date parsing.** `datetime.strptime(date, "%Y-%m-%d")` is a library call. It is a
  parameter `isoDate: string -> bool` of the guards, so the calendar rules it applies are not
  modelled.
- **`str.strip()`.** It is modelled for the ASCII whitespace characters only. Other Unicode
  whitespace is not treated as blank.
- **Message and exception text.** Formatting is not modelled. A log message is `Added(ids)`
  or `Error(ids, reason)`, and an exception is one of the error values described above.
- **`DataSource` and `Telemetry`.** Both are empty interfaces (`src/app/loader/agenda_data_loader.py:7-25`).
  - The data source is the sequence of batches it yields. Generator laziness and the
    `batch_size` argument are not modelled, because the batching belongs to the source.
  - The list-backed source of the loader tests is modelled by `Loader.Chunks`.
  - The telemetry service is the returned log.
- **Loader error handling.** Two Python runtime effects are not modelled:
  - `except Exception` also catches errors other than the agenda's `ValueError`s.
  - The "Added" log call (`src/app/loader/agenda_data_loader.py:45`) is inside the `try`.
    If it fails, the `except` logs an error message for a batch that was already stored.
    Only a failure of the error log call at :47 propagates. The model's log never fails.
- **The loader test's concrete run.** The sizes `(3, 3, 2)` in
  `tests/test_employee_data_loader.py` are not stated as a lemma of their own. The general
  lemmas cover them: `Run`, `MessageTellsOutcome` and `RejectedBatchIsSkipped`.
- **Dynamic typing.** Ids are integers and names are strings. Errors from other argument
  types are not modelled, for example comparing a `Department` with a non-department, or
  `strip()` on a non-string.
- **Accessors.** Fields are read directly from the datatypes and from the `Job` class. In the
  source, `hiring_date`, `job_id` and `department_id` (and `Job.id`, `Job.name`,
  `Department.id`, `Department.name`) are read-only properties. `id`, `first_name` and
  `last_name` of both `Employee` classes are plain attributes (`src/app/domain/employee.py:22-24`,
  `src/app/employee/employee.py:16-18`).
- **Employee aliasing.** The model treats employees as immutable values.
  - In the source, both agendas store the caller's employee object
    (`src/app/agenda/employee_agenda.py:24`, `src/app/employee_agenda.py:27`).
  - A later `employee.id = ...` by the caller changes the stored object's id without moving
    its dictionary entry. This breaks the "each entry is stored under its own id" invariant.
  - The model cannot show such a change.
- **Concurrency.** The source has none.
