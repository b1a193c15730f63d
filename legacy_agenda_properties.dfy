/**
 * What the older agenda's batch `add` guarantees, and where its promise to
 * roll back stops: the validation loops reject before any write, but the
 * commit loops can raise half-way when a list repeats an id.
 */
module LegacyAgendaProperties {
  import opened Wrappers
  import opened Keyed
  import opened Jobs
  import opened Departments
  import opened Employees
  import opened LegacyAgenda

  /** `add` passes validation exactly when no check of the three loops fails. */
  lemma ValidatePassesIff(st: Store, es: seq<FlatEmployee>, js: seq<Job>, ds: seq<Department>)
    ensures Validate(st, es, js, ds) == Pass <==>
      && (forall i :: 0 <= i < |js| ==> js[i].id !in st.jobs)
      && (forall i :: 0 <= i < |ds| ==> ds[i].id !in st.departments)
      && (forall i :: 0 <= i < |es| ==>
            && es[i].id !in st.employees
            && (es[i].jobId in st.jobs || es[i].jobId in KeySet(js, JobKey))
            && (es[i].departmentId in st.departments || es[i].departmentId in KeySet(ds, DepartmentKey)))
  {
    var n := FirstUnplaceable(st, es, js, ds);
    if n < |es| {
      assert EmployeeCheck(st, es[n], js, ds).Fail?;
    }
  }

  /** A listed job whose id is stored is rejected, and nothing is written. */
  lemma StoredJobRejected(st: Store, es: seq<FlatEmployee>, js: seq<Job>, ds: seq<Department>, i: int)
    requires 0 <= i < |js| && js[i].id in st.jobs
    ensures AddAll(st, es, js, ds).0 == st
    ensures AddAll(st, es, js, ds).1.Fail?
    ensures AddAll(st, es, js, ds).1.error.JobExists?
  {
    assert FirstPresent(st.jobs, js, JobKey) <= i;
  }

  /** A listed department whose id is stored is rejected, and nothing is written. */
  lemma StoredDepartmentRejected(st: Store, es: seq<FlatEmployee>, js: seq<Job>, ds: seq<Department>, i: int)
    requires 0 <= i < |ds| && ds[i].id in st.departments
    ensures AddAll(st, es, js, ds).0 == st
    ensures AddAll(st, es, js, ds).1.Fail?
  {
    assert FirstPresent(st.departments, ds, DepartmentKey) <= i;
  }

  /**
   * A listed employee whose id is stored, or whose job or department is
   * neither stored nor listed, is rejected, and nothing is written.
   */
  lemma UnplaceableEmployeeRejected(st: Store, es: seq<FlatEmployee>, js: seq<Job>, ds: seq<Department>, i: int)
    requires 0 <= i < |es|
    requires || es[i].id in st.employees
             || (es[i].jobId !in st.jobs && es[i].jobId !in KeySet(js, JobKey))
             || (es[i].departmentId !in st.departments && es[i].departmentId !in KeySet(ds, DepartmentKey))
    ensures AddAll(st, es, js, ds).0 == st
    ensures AddAll(st, es, js, ds).1.Fail?
  {
    assert EmployeeCheck(st, es[i], js, ds).Fail?;
    assert FirstUnplaceable(st, es, js, ds) <= i;
  }

  /** Every call to `add` keeps the agenda's invariant, whether or not it raises. */
  lemma AddKeepsInvariant(st: Store, es: seq<FlatEmployee>, js: seq<Job>, ds: seq<Department>)
    requires Invariant(st)
    ensures Invariant(AddAll(st, es, js, ds).0)
  {
    CommitAllKeepsInvariant(st, js, InsertJob);
    var afterJobs := CommitAll(st, js, InsertJob).0;
    CommitAllKeepsInvariant(afterJobs, ds, InsertDepartment);
    var afterDepartments := CommitAll(afterJobs, ds, InsertDepartment).0;
    CommitAllKeepsInvariant(afterDepartments, es, InsertEmployee);
  }

  /** Committing new jobs with distinct ids stores every one of them. */
  lemma {:induction false} CommitNewJobs(st: Store, js: seq<Job>)
    requires forall i :: 0 <= i < |js| ==> js[i].id !in st.jobs
    requires DistinctKeys(js, JobKey)
    ensures CommitAll(st, js, InsertJob) == (st.(jobs := PutAll(st.jobs, js, JobKey)), Pass)
    decreases |js|
  {
    if js != [] {
      var next := st.(jobs := st.jobs[js[0].id := js[0]]);
      assert InsertJob(st, js[0]) == (next, Pass);
      assert DistinctKeys(js[1..], JobKey);
      CommitNewJobs(next, js[1..]);
    }
  }

  /** Committing new departments with distinct ids stores every one of them. */
  lemma {:induction false} CommitNewDepartments(st: Store, ds: seq<Department>)
    requires forall i :: 0 <= i < |ds| ==> ds[i].id !in st.departments
    requires DistinctKeys(ds, DepartmentKey)
    ensures CommitAll(st, ds, InsertDepartment) == (st.(departments := PutAll(st.departments, ds, DepartmentKey)), Pass)
    decreases |ds|
  {
    if ds != [] {
      var next := st.(departments := st.departments[ds[0].id := ds[0]]);
      assert InsertDepartment(st, ds[0]) == (next, Pass);
      assert DistinctKeys(ds[1..], DepartmentKey);
      CommitNewDepartments(next, ds[1..]);
    }
  }

  /**
   * Committing new employees with distinct ids, whose jobs and departments
   * are stored, stores every one of them.
   */
  lemma {:induction false} CommitNewEmployees(st: Store, es: seq<FlatEmployee>)
    requires forall i :: 0 <= i < |es| ==>
      es[i].id !in st.employees && es[i].jobId in st.jobs && es[i].departmentId in st.departments
    requires DistinctKeys(es, FlatEmployeeKey)
    ensures CommitAll(st, es, InsertEmployee) == (st.(employees := PutAll(st.employees, es, FlatEmployeeKey)), Pass)
    decreases |es|
  {
    if es != [] {
      var next := st.(employees := st.employees[es[0].id := es[0]]);
      assert InsertEmployee(st, es[0]) == (next, Pass);
      assert DistinctKeys(es[1..], FlatEmployeeKey);
      CommitNewEmployees(next, es[1..]);
    }
  }

  /**
   * When validation passes and no list repeats an id, `add` stores every
   * listed item and each count grows by the length of its list.
   */
  lemma DistinctListsCommitEverything(st: Store, es: seq<FlatEmployee>, js: seq<Job>, ds: seq<Department>)
    requires Validate(st, es, js, ds) == Pass
    requires DistinctKeys(es, FlatEmployeeKey) && DistinctKeys(js, JobKey) && DistinctKeys(ds, DepartmentKey)
    ensures AddAll(st, es, js, ds).1 == Pass
    ensures AddAll(st, es, js, ds).0 == Store(
      PutAll(st.employees, es, FlatEmployeeKey),
      PutAll(st.jobs, js, JobKey),
      PutAll(st.departments, ds, DepartmentKey))
    ensures |AddAll(st, es, js, ds).0.employees| == |st.employees| + |es|
    ensures |AddAll(st, es, js, ds).0.jobs| == |st.jobs| + |js|
    ensures |AddAll(st, es, js, ds).0.departments| == |st.departments| + |ds|
  {
    CommitListsBeforeEmployees(st, es, js, ds);
    var afterLists := Store(st.employees, PutAll(st.jobs, js, JobKey), PutAll(st.departments, ds, DepartmentKey));
    CommitNewEmployees(afterLists, es);
    var r := AddAll(st, es, js, ds).0;
    assert r == afterLists.(employees := PutAll(st.employees, es, FlatEmployeeKey));
    assert |r.employees| == |st.employees| + |es| by {
      NewKeysGrowBy(st.employees, es, FlatEmployeeKey);
    }
    assert |r.jobs| == |st.jobs| + |js| && |r.departments| == |st.departments| + |ds| by {
      ValidatePassesIff(st, es, js, ds);
      NewKeysGrowBy(st.jobs, js, JobKey);
      NewKeysGrowBy(st.departments, ds, DepartmentKey);
    }
  }

  /**
   * `size()` after a single insert: the inserted kind's count grows by one
   * when the insert passes, and nothing changes when it raises.
   */
  lemma InsertSize(st: Store, e: FlatEmployee, j: Job, d: Department)
    ensures InsertEmployee(st, e).0.Size() ==
      if InsertEmployee(st, e).1 == Pass then (|st.employees| + 1, |st.jobs|, |st.departments|) else st.Size()
    ensures InsertJob(st, j).0.Size() ==
      if InsertJob(st, j).1 == Pass then (|st.employees|, |st.jobs| + 1, |st.departments|) else st.Size()
    ensures InsertDepartment(st, d).0.Size() ==
      if InsertDepartment(st, d).1 == Pass then (|st.employees|, |st.jobs|, |st.departments| + 1) else st.Size()
  {
  }

  /**
   * When validation passes and the job and department lists have distinct
   * ids, `add` stores all of them and then runs the employee commit loop on
   * a store where every listed employee's job and department is present.
   */
  lemma CommitListsBeforeEmployees(st: Store, es: seq<FlatEmployee>, js: seq<Job>, ds: seq<Department>)
    requires Validate(st, es, js, ds) == Pass
    requires DistinctKeys(js, JobKey) && DistinctKeys(ds, DepartmentKey)
    ensures var afterLists := Store(st.employees, PutAll(st.jobs, js, JobKey), PutAll(st.departments, ds, DepartmentKey));
      && AddAll(st, es, js, ds) == CommitAll(afterLists, es, InsertEmployee)
      && forall i :: 0 <= i < |es| ==>
           es[i].id !in afterLists.employees && es[i].jobId in afterLists.jobs && es[i].departmentId in afterLists.departments
  {
    ValidatePassesIff(st, es, js, ds);
    CommitNewJobs(st, js);
    var afterJobs := st.(jobs := PutAll(st.jobs, js, JobKey));
    CommitNewDepartments(afterJobs, ds);
  }

  /** Writing distinct keys none of which are held grows the dictionary by the list length. */
  lemma NewKeysGrowBy<T>(m: map<int, T>, xs: seq<T>, key: T -> int)
    requires forall i :: 0 <= i < |xs| ==> key(xs[i]) !in m
    requires DistinctKeys(xs, key)
    ensures |PutAll(m, xs, key)| == |m| + |xs|
  {
    assert KeySet(xs, key) !! m.Keys;
    PutAllSize(m, xs, key);
  }

  /** Jobs are never removed by the job commit loop. */
  lemma {:induction false} CommitJobsKeepsKeys(st: Store, js: seq<Job>)
    ensures st.jobs.Keys <= CommitAll(st, js, InsertJob).0.jobs.Keys
    decreases |js|
  {
    if js != [] && InsertJob(st, js[0]).1 == Pass {
      CommitJobsKeepsKeys(InsertJob(st, js[0]).0, js[1..]);
    }
  }

  /** The job commit loop raises `JobExists` when it meets an id already stored. */
  lemma {:induction false} CommitJobsStopsAtStored(st: Store, js: seq<Job>, j: int)
    requires 0 <= j < |js| && js[j].id in st.jobs
    ensures CommitAll(st, js, InsertJob).1.Fail?
    ensures CommitAll(st, js, InsertJob).1.error.JobExists?
    decreases |js|
  {
    if j > 0 && InsertJob(st, js[0]).1 == Pass {
      CommitJobsStopsAtStored(InsertJob(st, js[0]).0, js[1..], j - 1);
    }
  }

  /** The job commit loop raises `JobExists` when the list repeats an id. */
  lemma {:induction false} CommitJobsStopsAtRepeat(st: Store, js: seq<Job>, i: int, j: int)
    requires 0 <= i < j < |js| && js[i].id == js[j].id
    ensures CommitAll(st, js, InsertJob).1.Fail?
    ensures CommitAll(st, js, InsertJob).1.error.JobExists?
    decreases |js|
  {
    if InsertJob(st, js[0]).1 == Pass {
      var next := InsertJob(st, js[0]).0;
      if i == 0 {
        CommitJobsStopsAtStored(next, js[1..], j - 1);
      } else {
        CommitJobsStopsAtRepeat(next, js[1..], i - 1, j - 1);
      }
    }
  }

  /** Departments are never removed by the department commit loop, and it leaves the jobs alone. */
  lemma {:induction false} CommitDepartmentsKeepsKeys(st: Store, ds: seq<Department>)
    ensures st.departments.Keys <= CommitAll(st, ds, InsertDepartment).0.departments.Keys
    ensures CommitAll(st, ds, InsertDepartment).0.jobs == st.jobs
    decreases |ds|
  {
    if ds != [] && InsertDepartment(st, ds[0]).1 == Pass {
      CommitDepartmentsKeepsKeys(InsertDepartment(st, ds[0]).0, ds[1..]);
    }
  }

  /** The department commit loop raises `DepartmentExists` when it meets an id already stored. */
  lemma {:induction false} CommitDepartmentsStopsAtStored(st: Store, ds: seq<Department>, j: int)
    requires 0 <= j < |ds| && ds[j].id in st.departments
    ensures CommitAll(st, ds, InsertDepartment).1.Fail?
    ensures CommitAll(st, ds, InsertDepartment).1.error.DepartmentExists?
    decreases |ds|
  {
    if j > 0 && InsertDepartment(st, ds[0]).1 == Pass {
      CommitDepartmentsStopsAtStored(InsertDepartment(st, ds[0]).0, ds[1..], j - 1);
    }
  }

  /** The department commit loop raises `DepartmentExists` when the list repeats an id. */
  lemma {:induction false} CommitDepartmentsStopsAtRepeat(st: Store, ds: seq<Department>, i: int, j: int)
    requires 0 <= i < j < |ds| && ds[i].id == ds[j].id
    ensures CommitAll(st, ds, InsertDepartment).1.Fail?
    ensures CommitAll(st, ds, InsertDepartment).1.error.DepartmentExists?
    decreases |ds|
  {
    if InsertDepartment(st, ds[0]).1 == Pass {
      var next := InsertDepartment(st, ds[0]).0;
      if i == 0 {
        CommitDepartmentsStopsAtStored(next, ds[1..], j - 1);
      } else {
        CommitDepartmentsStopsAtRepeat(next, ds[1..], i - 1, j - 1);
      }
    }
  }

  /**
   * Employees are never removed by the employee commit loop, and it leaves
   * the jobs and departments alone.
   */
  lemma {:induction false} CommitEmployeesKeepsKeys(st: Store, es: seq<FlatEmployee>)
    ensures st.employees.Keys <= CommitAll(st, es, InsertEmployee).0.employees.Keys
    ensures CommitAll(st, es, InsertEmployee).0.jobs == st.jobs
    ensures CommitAll(st, es, InsertEmployee).0.departments == st.departments
    decreases |es|
  {
    if es != [] && InsertEmployee(st, es[0]).1 == Pass {
      CommitEmployeesKeepsKeys(InsertEmployee(st, es[0]).0, es[1..]);
    }
  }

  /** The employee commit loop raises when it meets an id already stored. */
  lemma {:induction false} CommitEmployeesStopsAtStored(st: Store, es: seq<FlatEmployee>, j: int)
    requires 0 <= j < |es| && es[j].id in st.employees
    ensures CommitAll(st, es, InsertEmployee).1.Fail?
    decreases |es|
  {
    if j > 0 && InsertEmployee(st, es[0]).1 == Pass {
      CommitEmployeesStopsAtStored(InsertEmployee(st, es[0]).0, es[1..], j - 1);
    }
  }

  /** The employee commit loop raises when the list repeats an id. */
  lemma {:induction false} CommitEmployeesStopsAtRepeat(st: Store, es: seq<FlatEmployee>, i: int, j: int)
    requires 0 <= i < j < |es| && es[i].id == es[j].id
    ensures CommitAll(st, es, InsertEmployee).1.Fail?
    decreases |es|
  {
    if InsertEmployee(st, es[0]).1 == Pass {
      var next := InsertEmployee(st, es[0]).0;
      if i == 0 {
        CommitEmployeesStopsAtStored(next, es[1..], j - 1);
      } else {
        CommitEmployeesStopsAtRepeat(next, es[1..], i - 1, j - 1);
      }
    }
  }

  /**
   * The rollback promise of `add` does not cover a job list that repeats an
   * id: validation passes, the commit loop raises `JobExists`, and the first
   * listed job has been stored by then.
   */
  lemma RepeatedJobIdBreaksRollback(st: Store, es: seq<FlatEmployee>, js: seq<Job>, ds: seq<Department>, i: int, j: int)
    requires Validate(st, es, js, ds) == Pass
    requires 0 <= i < j < |js| && js[i].id == js[j].id
    ensures AddAll(st, es, js, ds).1.Fail?
    ensures AddAll(st, es, js, ds).1.error.JobExists?
    ensures js[0].id !in st.jobs && js[0].id in AddAll(st, es, js, ds).0.jobs
  {
    ValidatePassesIff(st, es, js, ds);
    CommitJobsStopsAtRepeat(st, js, i, j);
    var next := InsertJob(st, js[0]).0;
    CommitJobsKeepsKeys(next, js[1..]);
  }

  /**
   * The same for a department list that repeats an id: the listed jobs are
   * all stored, the department loop raises `DepartmentExists`, and the first
   * listed department has been stored by then.
   */
  lemma RepeatedDepartmentIdBreaksRollback(st: Store, es: seq<FlatEmployee>, js: seq<Job>, ds: seq<Department>, i: int, j: int)
    requires Validate(st, es, js, ds) == Pass
    requires DistinctKeys(js, JobKey)
    requires 0 <= i < j < |ds| && ds[i].id == ds[j].id
    ensures AddAll(st, es, js, ds).1.Fail?
    ensures AddAll(st, es, js, ds).1.error.DepartmentExists?
    ensures AddAll(st, es, js, ds).0.jobs == PutAll(st.jobs, js, JobKey)
    ensures ds[0].id !in st.departments && ds[0].id in AddAll(st, es, js, ds).0.departments
  {
    var afterJobs := st.(jobs := PutAll(st.jobs, js, JobKey));
    assert CommitAll(st, js, InsertJob) == (afterJobs, Pass) by {
      ValidatePassesIff(st, es, js, ds);
      CommitNewJobs(st, js);
    }
    assert ds[0].id !in st.departments by {
      ValidatePassesIff(st, es, js, ds);
    }
    CommitDepartmentsStopsAtRepeat(afterJobs, ds, i, j);
    assert AddAll(st, es, js, ds) == CommitAll(afterJobs, ds, InsertDepartment);
    CommitDepartmentsKeepsKeys(afterJobs, ds);
    var next := InsertDepartment(afterJobs, ds[0]).0;
    CommitDepartmentsKeepsKeys(next, ds[1..]);
  }

  /**
   * The same for an employee list that repeats an id: the jobs and
   * departments are all stored, the employee loop raises, and the first
   * listed employee has been stored by then.
   */
  lemma RepeatedEmployeeIdBreaksRollback(st: Store, es: seq<FlatEmployee>, js: seq<Job>, ds: seq<Department>, i: int, j: int)
    requires Validate(st, es, js, ds) == Pass
    requires DistinctKeys(js, JobKey) && DistinctKeys(ds, DepartmentKey)
    requires 0 <= i < j < |es| && es[i].id == es[j].id
    ensures AddAll(st, es, js, ds).1.Fail?
    ensures AddAll(st, es, js, ds).0.jobs == PutAll(st.jobs, js, JobKey)
    ensures AddAll(st, es, js, ds).0.departments == PutAll(st.departments, ds, DepartmentKey)
    ensures es[0].id !in st.employees && es[0].id in AddAll(st, es, js, ds).0.employees
  {
    CommitListsBeforeEmployees(st, es, js, ds);
    var afterLists := Store(st.employees, PutAll(st.jobs, js, JobKey), PutAll(st.departments, ds, DepartmentKey));
    CommitEmployeesStopsAtRepeat(afterLists, es, i, j);
    CommitEmployeesKeepsKeys(afterLists, es);
    var next := InsertEmployee(afterLists, es[0]).0;
    CommitEmployeesKeepsKeys(next, es[1..]);
  }
}
