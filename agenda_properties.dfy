/**
 * What a batch insert of the current agenda guarantees, stated on the
 * value-level model (`Agenda.Submit`) that `EmployeeAgenda.AddEmployees`
 * is proved to follow.
 */
module AgendaProperties {
  import opened Wrappers
  import opened Keyed
  import opened Jobs
  import opened Departments
  import opened Employees
  import opened Agenda

  /** The ids of the jobs a batch refers to. */
  function BatchJobIds(batch: seq<Employee>): set<int> {
    set i | 0 <= i < |batch| :: batch[i].job.id
  }

  /** The ids of the departments a batch refers to. */
  function BatchDepartmentIds(batch: seq<Employee>): set<int> {
    set i | 0 <= i < |batch| :: batch[i].department.id
  }

  lemma BatchJobIdsAreKeys(batch: seq<Employee>)
    ensures KeySet(BatchJobs(batch), JobKey) == BatchJobIds(batch)
  {
    var js := BatchJobs(batch);
    forall k | k in BatchJobIds(batch) ensures k in KeySet(js, JobKey) {
      var i :| 0 <= i < |batch| && batch[i].job.id == k;
      assert JobKey(js[i]) == k;
    }
  }

  lemma BatchDepartmentIdsAreKeys(batch: seq<Employee>)
    ensures KeySet(BatchDepartments(batch), DepartmentKey) == BatchDepartmentIds(batch)
  {
    var ds := BatchDepartments(batch);
    forall k | k in BatchDepartmentIds(batch) ensures k in KeySet(ds, DepartmentKey) {
      var i :| 0 <= i < |batch| && batch[i].department.id == k;
      assert DepartmentKey(ds[i]) == k;
    }
  }

  /**
   * A batch is written exactly when its employee ids are pairwise distinct,
   * none is stored, every job it names is either unstored or the very object
   * stored under its id, and every department it names is either unstored or
   * equal to the stored one.
   */
  lemma CheckPassesIff(st: Registry, batch: seq<Employee>)
    ensures Check(st, batch) == Pass <==>
      && (forall i, j :: 0 <= i < j < |batch| ==> batch[i].id != batch[j].id)
      && (forall i :: 0 <= i < |batch| ==> batch[i].id !in st.employees)
      && (forall i :: 0 <= i < |batch| && batch[i].job.id in st.jobs ==>
            st.jobs[batch[i].job.id] == batch[i].job)
      && (forall i :: 0 <= i < |batch| && batch[i].department.id in st.departments ==>
            st.departments[batch[i].department.id] == batch[i].department)
  {
    var js, ds := BatchJobs(batch), BatchDepartments(batch);
    assert forall i :: 0 <= i < |batch| ==> js[i] == batch[i].job && ds[i] == batch[i].department;
    var e := FirstPresent(st.employees, batch, EmployeeKey);
    var j := FirstConflict(st.jobs, js, JobKey);
    var d := FirstConflict(st.departments, ds, DepartmentKey);
    if e < |batch| { assert batch[e].id in st.employees; }
    if j < |js| { assert Conflicts(st.jobs, js[j], JobKey); }
    if d < |ds| { assert Conflicts(st.departments, ds[d], DepartmentKey); }
  }

  /** Two employees of one batch with the same id: the insert raises and nothing changes. */
  lemma DuplicateIdsRejected(st: Registry, batch: seq<Employee>, i: int, j: int)
    requires 0 <= i < j < |batch| && batch[i].id == batch[j].id
    ensures Submit(st, batch) == (st, Fail(DuplicateIds))
  {
  }

  /**
   * A batch employee whose id is stored: the insert raises, the agenda is
   * unchanged (so the stored employee with that id is still the original),
   * and unless the batch has duplicate ids the error names a stored id.
   */
  lemma StoredIdRejected(st: Registry, batch: seq<Employee>, i: int)
    requires 0 <= i < |batch| && batch[i].id in st.employees
    ensures Submit(st, batch).0 == st
    ensures Submit(st, batch).1.Fail?
    ensures !HasDuplicateIds(batch) ==>
      Submit(st, batch).1.error.EmployeeExists? && Submit(st, batch).1.error.id in st.employees
  {
    var outcome := Check(st, batch);
    assert outcome.Fail? && (!HasDuplicateIds(batch) ==> outcome.error.EmployeeExists? && outcome.error.id in st.employees) by {
      var e := FirstPresent(st.employees, batch, EmployeeKey);
      assert e <= i;
    }
    assert Submit(st, batch) == (st, outcome);
  }

  /**
   * A batch job stored under its id as a different object makes the insert
   * raise with nothing changed, even when both objects carry the same id and
   * name: jobs are compared by identity.
   */
  lemma JobObjectMismatchRejected(st: Registry, batch: seq<Employee>, i: int)
    requires 0 <= i < |batch| && batch[i].job.id in st.jobs && st.jobs[batch[i].job.id] != batch[i].job
    ensures Submit(st, batch).0 == st
    ensures Submit(st, batch).1.Fail?
  {
    var js := BatchJobs(batch);
    assert js[i] == batch[i].job;
    assert Conflicts(st.jobs, js[i], JobKey);
  }

  /** In particular a stored job id arriving with a different name is rejected. */
  lemma JobNameClashRejected(st: Registry, batch: seq<Employee>, i: int)
    requires 0 <= i < |batch| && batch[i].job.id in st.jobs
    requires st.jobs[batch[i].job.id].name != batch[i].job.name
    ensures Submit(st, batch).0 == st && Submit(st, batch).1.Fail?
  {
    JobObjectMismatchRejected(st, batch, i);
  }

  /**
   * A stored department id arriving with a different name ("I.T." against
   * "IT") makes the insert raise with nothing changed.
   */
  lemma DepartmentNameClashRejected(st: Registry, batch: seq<Employee>, i: int)
    requires 0 <= i < |batch| && batch[i].department.id in st.departments
    requires st.departments[batch[i].department.id].name != batch[i].department.name
    ensures Submit(st, batch).0 == st
    ensures Submit(st, batch).1.Fail?
  {
    var ds := BatchDepartments(batch);
    assert ds[i] == batch[i].department;
    assert Conflicts(st.departments, ds[i], DepartmentKey);
  }

  /**
   * After a successful insert every batch employee is stored under its id
   * as the same record, earlier employees are untouched, and the employee
   * count has grown by exactly the batch length.
   */
  lemma SuccessStoresEveryEmployee(st: Registry, batch: seq<Employee>)
    requires Submit(st, batch).1 == Pass
    ensures forall i :: 0 <= i < |batch| ==>
      batch[i].id in Submit(st, batch).0.employees && Submit(st, batch).0.employees[batch[i].id] == batch[i]
    ensures forall k :: k in st.employees ==> Submit(st, batch).0.employees[k] == st.employees[k]
    ensures |Submit(st, batch).0.employees| == |st.employees| + |batch|
  {
    CheckPassesIff(st, batch);
    var m := PutAll(st.employees, batch, EmployeeKey);
    forall i | 0 <= i < |batch| ensures batch[i].id in m && m[batch[i].id] == batch[i] {
      assert IsLastWithKey(batch, EmployeeKey, i);
    }
    assert KeySet(batch, EmployeeKey) !! st.employees.Keys;
    PutAllSize(st.employees, batch, EmployeeKey);
  }

  /** What a successful insert leaves behind is the write phase applied to the old state. */
  lemma SubmitPassIsApply(st: Registry, batch: seq<Employee>)
    requires Submit(st, batch).1 == Pass
    ensures Check(st, batch) == Pass && Submit(st, batch).0 == Apply(st, batch)
  {
  }

  lemma JobKeysAfterApply(st: Registry, batch: seq<Employee>)
    ensures Apply(st, batch).jobs.Keys == st.jobs.Keys + BatchJobIds(batch)
    ensures |Apply(st, batch).jobs| == |st.jobs| + |BatchJobIds(batch) - st.jobs.Keys|
  {
    BatchJobIdsAreKeys(batch);
    PutAbsentSize(st.jobs, BatchJobs(batch), JobKey);
  }

  lemma DepartmentKeysAfterApply(st: Registry, batch: seq<Employee>)
    ensures Apply(st, batch).departments.Keys == st.departments.Keys + BatchDepartmentIds(batch)
    ensures |Apply(st, batch).departments| == |st.departments| + |BatchDepartmentIds(batch) - st.departments.Keys|
  {
    BatchDepartmentIdsAreKeys(batch);
    PutAbsentSize(st.departments, BatchDepartments(batch), DepartmentKey);
  }

  /**
   * After a successful insert the stored job ids are the old ones plus the
   * batch's, so the job count grows by the number of distinct batch job ids
   * not stored before; the same for departments.
   */
  lemma SuccessJobAndDepartmentCounts(st: Registry, batch: seq<Employee>)
    requires Submit(st, batch).1 == Pass
    ensures Submit(st, batch).0.jobs.Keys == st.jobs.Keys + BatchJobIds(batch)
    ensures |Submit(st, batch).0.jobs| == |st.jobs| + |BatchJobIds(batch) - st.jobs.Keys|
    ensures Submit(st, batch).0.departments.Keys == st.departments.Keys + BatchDepartmentIds(batch)
    ensures |Submit(st, batch).0.departments| == |st.departments| + |BatchDepartmentIds(batch) - st.departments.Keys|
  {
    SubmitPassIsApply(st, batch);
    JobKeysAfterApply(st, batch);
    DepartmentKeysAfterApply(st, batch);
  }

  /**
   * `size()` after `add_employees`: unchanged when the call raises; otherwise
   * every batch employee is counted, and the job and department counts grow
   * by the batch's ids that were not stored.
   */
  lemma SubmitSize(st: Registry, batch: seq<Employee>)
    ensures Submit(st, batch).1.Fail? ==> Submit(st, batch).0.Size() == st.Size()
    ensures Submit(st, batch).1 == Pass ==> Submit(st, batch).0.Size() == (
      |st.employees| + |batch|,
      |st.jobs| + |BatchJobIds(batch) - st.jobs.Keys|,
      |st.departments| + |BatchDepartmentIds(batch) - st.departments.Keys|)
  {
    if Submit(st, batch).1 == Pass {
      SuccessSize(st, batch);
    }
  }

  lemma SuccessSize(st: Registry, batch: seq<Employee>)
    requires Submit(st, batch).1 == Pass
    ensures Submit(st, batch).0.Size() == (
      |st.employees| + |batch|,
      |st.jobs| + |BatchJobIds(batch) - st.jobs.Keys|,
      |st.departments| + |BatchDepartmentIds(batch) - st.departments.Keys|)
  {
    var after := Submit(st, batch).0;
    assert |after.employees| == |st.employees| + |batch| by {
      SuccessStoresEveryEmployee(st, batch);
    }
    assert |after.jobs| == |st.jobs| + |BatchJobIds(batch) - st.jobs.Keys| by {
      SuccessJobAndDepartmentCounts(st, batch);
    }
    assert |after.departments| == |st.departments| + |BatchDepartmentIds(batch) - st.departments.Keys| by {
      SuccessJobAndDepartmentCounts(st, batch);
    }
  }

  /**
   * No insert ever replaces a stored entry: jobs and departments are written
   * only under ids absent at call time, and employees only after the check
   * that none of their ids is stored.
   */
  lemma StoredEntriesNeverOverwritten(st: Registry, batch: seq<Employee>)
    ensures forall k :: k in st.jobs ==> Submit(st, batch).0.jobs[k] == st.jobs[k]
    ensures forall k :: k in st.departments ==> Submit(st, batch).0.departments[k] == st.departments[k]
    ensures forall k :: k in st.employees ==> Submit(st, batch).0.employees[k] == st.employees[k]
  {
    if Check(st, batch).Pass? {
      CheckPassesIff(st, batch);
      assert KeySet(batch, EmployeeKey) !! st.employees.Keys;
    }
  }

  /**
   * The batch is not checked against itself for jobs or departments: among
   * batch entries with the same new job (department) id, the one latest in
   * batch order is what gets stored.
   */
  lemma LatestJobWins(st: Registry, batch: seq<Employee>, i: int)
    requires Submit(st, batch).1 == Pass
    requires 0 <= i < |batch| && batch[i].job.id !in st.jobs
    requires forall j :: i < j < |batch| ==> batch[j].job.id != batch[i].job.id
    ensures batch[i].job.id in Submit(st, batch).0.jobs
    ensures Submit(st, batch).0.jobs[batch[i].job.id] == batch[i].job
  {
    SubmitPassIsApply(st, batch);
    var js := BatchJobs(batch);
    assert IsLastWithKey(js, JobKey, i);
    AbsentKeepsLast(st.jobs, js, JobKey, i);
  }

  lemma LatestDepartmentWins(st: Registry, batch: seq<Employee>, i: int)
    requires Submit(st, batch).1 == Pass
    requires 0 <= i < |batch| && batch[i].department.id !in st.departments
    requires forall j :: i < j < |batch| ==> batch[j].department.id != batch[i].department.id
    ensures batch[i].department.id in Submit(st, batch).0.departments
    ensures Submit(st, batch).0.departments[batch[i].department.id] == batch[i].department
  {
    SubmitPassIsApply(st, batch);
    var ds := BatchDepartments(batch);
    assert IsLastWithKey(ds, DepartmentKey, i);
    AbsentKeepsLast(st.departments, ds, DepartmentKey, i);
  }

  /**
   * Two new employees naming the same new job id with different names are
   * accepted, and afterwards the first employee's job is not the stored job
   * with its id: the agenda keeps ids consistent, not job records.
   */
  lemma InBatchJobClashUndetected(st: Registry, e1: Employee, e2: Employee)
    requires e1.id != e2.id && e1.id !in st.employees && e2.id !in st.employees
    requires e1.job.id == e2.job.id && e1.job.id !in st.jobs && e1.job.name != e2.job.name
    requires e1.department == e2.department && e1.department.id !in st.departments
    ensures Submit(st, [e1, e2]).1 == Pass
    ensures var st' := Submit(st, [e1, e2]).0;
      st'.employees[e1.id] == e1 && st'.jobs[e1.job.id] == e2.job && st'.jobs[e1.job.id] != e1.job
  {
    var batch := [e1, e2];
    PairPasses(st, e1, e2);
    assert Submit(st, batch).1 == Pass;
    assert Submit(st, batch).0.employees[e1.id] == e1 by {
      SuccessStoresEveryEmployee(st, batch);
    }
    assert Submit(st, batch).0.jobs[e1.job.id] == e2.job by {
      LatestJobWins(st, batch, 1);
    }
  }

  lemma PairPasses(st: Registry, e1: Employee, e2: Employee)
    requires e1.id != e2.id && e1.id !in st.employees && e2.id !in st.employees
    requires e1.job.id == e2.job.id && e1.job.id !in st.jobs
    requires e1.department == e2.department && e1.department.id !in st.departments
    ensures Check(st, [e1, e2]) == Pass
  {
    CheckPassesIff(st, [e1, e2]);
  }

  /** A successful insert keeps the agenda's invariant, and a failed one does not touch the state. */
  lemma SubmitKeepsInvariant(st: Registry, batch: seq<Employee>)
    requires Invariant(st)
    ensures Invariant(Submit(st, batch).0)
  {
    if Check(st, batch).Pass? {
      ApplyKeepsInvariant(st, batch);
    }
  }

  /**
   * The first scenario of the agenda's tests: into an empty agenda, three
   * employees with ids 1, 2, 3, two sharing job 2 and all in department 1,
   * are accepted and give sizes (3, 2, 1).
   */
  lemma ThreeEmployeesScenario(st: Registry, batch: seq<Employee>)
    requires st.employees == map[] && st.jobs == map[] && st.departments == map[]
    requires |batch| == 3 && batch[0].id == 1 && batch[1].id == 2 && batch[2].id == 3
    requires batch[0].job.id == 2 && batch[1].job.id == 2 && batch[2].job.id == 3
    requires batch[0].department.id == 1 && batch[1].department.id == 1 && batch[2].department.id == 1
    ensures Submit(st, batch).1 == Pass
    ensures Submit(st, batch).0.Size() == (3, 2, 1)
  {
    ScenarioPasses(st, batch);
    ScenarioEmployeeCount(st, batch);
    ScenarioJobCount(st, batch);
    ScenarioDepartmentCount(st, batch);
    assert Submit(st, batch) == (Apply(st, batch), Pass);
  }

  lemma ScenarioEmployeeCount(st: Registry, batch: seq<Employee>)
    requires st.employees == map[] && st.jobs == map[] && st.departments == map[]
    requires |batch| == 3 && batch[0].id == 1 && batch[1].id == 2 && batch[2].id == 3
    ensures |Apply(st, batch).employees| == 3
  {
    ScenarioPasses(st, batch);
    SuccessStoresEveryEmployee(st, batch);
  }

  lemma ScenarioJobCount(st: Registry, batch: seq<Employee>)
    requires st.jobs == map[]
    requires |batch| == 3 && batch[0].job.id == 2 && batch[1].job.id == 2 && batch[2].job.id == 3
    ensures |Apply(st, batch).jobs| == 2
  {
    JobKeysAfterApply(st, batch);
    ScenarioJobIds(batch);
  }

  lemma ScenarioDepartmentCount(st: Registry, batch: seq<Employee>)
    requires st.departments == map[]
    requires |batch| == 3 && batch[0].department.id == 1 && batch[1].department.id == 1 && batch[2].department.id == 1
    ensures |Apply(st, batch).departments| == 1
  {
    DepartmentKeysAfterApply(st, batch);
    ScenarioDepartmentIds(batch);
  }

  lemma ScenarioPasses(st: Registry, batch: seq<Employee>)
    requires st.employees == map[] && st.jobs == map[] && st.departments == map[]
    requires |batch| == 3 && batch[0].id == 1 && batch[1].id == 2 && batch[2].id == 3
    ensures Check(st, batch) == Pass
  {
    assert !HasDuplicateIds(batch);
    assert FirstPresent(st.employees, batch, EmployeeKey) == |batch|;
    assert FirstConflict(st.jobs, BatchJobs(batch), JobKey) == |batch|;
    assert FirstConflict(st.departments, BatchDepartments(batch), DepartmentKey) == |batch|;
  }

  lemma ScenarioJobIds(batch: seq<Employee>)
    requires |batch| == 3 && batch[0].job.id == 2 && batch[1].job.id == 2 && batch[2].job.id == 3
    ensures BatchJobIds(batch) == {2, 3}
  {
    forall k | k in BatchJobIds(batch) ensures k in {2, 3} {
      var i :| 0 <= i < 3 && batch[i].job.id == k;
      assert i == 0 || i == 1 || i == 2;
    }
    assert 2 in BatchJobIds(batch) && 3 in BatchJobIds(batch);
  }

  lemma ScenarioDepartmentIds(batch: seq<Employee>)
    requires |batch| == 3 && batch[0].department.id == 1 && batch[1].department.id == 1 && batch[2].department.id == 1
    ensures BatchDepartmentIds(batch) == {1}
  {
    forall k | k in BatchDepartmentIds(batch) ensures k == 1 {
      var i :| 0 <= i < 3 && batch[i].department.id == k;
      assert i == 0 || i == 1 || i == 2;
    }
    assert 1 in BatchDepartmentIds(batch);
  }
}
