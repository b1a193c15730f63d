/**
 * The current employee agenda: three dictionaries keyed by id (employees,
 * jobs, departments) and a batch insert that runs every check before the
 * first write. `Registry` is the agenda's state as a value; `Check`,
 * `Apply` and `Submit` say what one batch insert does to it, and the class
 * `EmployeeAgenda` is proved to behave that way.
 */
module Agenda {
  import opened Wrappers
  import opened Keyed
  import opened Jobs
  import opened Departments
  import opened Employees

  /** The `ValueError`s a batch insert raises, one per check. */
  datatype AgendaError =
    | DuplicateIds
    | EmployeeExists(id: int)
    | JobConflict(id: int)
    | DepartmentConflict(id: int)

  datatype Registry = Registry(
    employees: map<int, Employee>,
    jobs: map<int, Job>,
    departments: map<int, Department>)
  {
    /** `size()`: employees, jobs, departments. */
    function Size(): (nat, nat, nat) {
      (|employees|, |jobs|, |departments|)
    }
  }

  /**
   * What the agenda keeps true between calls: every entry is stored under its
   * own id, and every employee's job and department ids are stored.
   */
  predicate Invariant(st: Registry) {
    && KeysMatch(st.employees, EmployeeKey)
    && KeysMatch(st.jobs, JobKey)
    && KeysMatch(st.departments, DepartmentKey)
    && forall k :: k in st.employees ==>
         st.employees[k].job.id in st.jobs && st.employees[k].department.id in st.departments
  }

  /** `[employee.id for employee in employees]` */
  function Ids(batch: seq<Employee>): (ids: seq<int>)
    ensures |ids| == |batch|
  {
    seq(|batch|, i requires 0 <= i < |batch| => batch[i].id)
  }

  /** `[employee.job for employee in employees]` */
  function BatchJobs(batch: seq<Employee>): (js: seq<Job>)
    ensures |js| == |batch|
  {
    seq(|batch|, i requires 0 <= i < |batch| => batch[i].job)
  }

  /** `[employee.department for employee in employees]` */
  function BatchDepartments(batch: seq<Employee>): (ds: seq<Department>)
    ensures |ds| == |batch|
  {
    seq(|batch|, i requires 0 <= i < |batch| => batch[i].department)
  }

  /** `_check_if_duplicate_ids`: `len(ids) != len(set(ids))` holds exactly when two employees share an id. */
  function HasDuplicateIds(batch: seq<Employee>): (r: bool)
    ensures r <==> exists i, j :: 0 <= i < j < |batch| && batch[i].id == batch[j].id
  {
    var ids := Ids(batch);
    assert (set id | id in ids) == KeySet(batch, EmployeeKey) by {
      forall id | id in ids ensures id in KeySet(batch, EmployeeKey) {
        var i :| 0 <= i < |ids| && ids[i] == id;
        assert EmployeeKey(batch[i]) == id;
      }
      forall id | id in KeySet(batch, EmployeeKey) ensures id in ids {
        var i :| 0 <= i < |batch| && EmployeeKey(batch[i]) == id;
        assert ids[i] == id;
      }
    }
    KeySetSize(batch, EmployeeKey);
    assert DistinctKeys(batch, EmployeeKey) <==> forall i, j :: 0 <= i < j < |batch| ==> batch[i].id != batch[j].id;
    |ids| != |set id | id in ids|
  }

  /**
   * The checks of `add_employees`, in source order; the first that fails
   * names the error. `Pass` means the batch is written.
   */
  function Check(st: Registry, batch: seq<Employee>): Outcome<AgendaError> {
    if HasDuplicateIds(batch) then Fail(DuplicateIds)
    else
      var e := FirstPresent(st.employees, batch, EmployeeKey);
      if e < |batch| then Fail(EmployeeExists(batch[e].id))
      else
        var js := BatchJobs(batch);
        var j := FirstConflict(st.jobs, js, JobKey);
        if j < |js| then Fail(JobConflict(js[j].id))
        else
          var ds := BatchDepartments(batch);
          var d := FirstConflict(st.departments, ds, DepartmentKey);
          if d < |ds| then Fail(DepartmentConflict(ds[d].id))
          else Pass
  }

  /** The jobs the batch writes: those whose id is not stored, in batch order. */
  function JobsToAdd(st: Registry, batch: seq<Employee>): seq<Job> {
    Absent(st.jobs, BatchJobs(batch), JobKey)
  }

  /** The departments the batch writes: those whose id is not stored, in batch order. */
  function DepartmentsToAdd(st: Registry, batch: seq<Employee>): seq<Department> {
    Absent(st.departments, BatchDepartments(batch), DepartmentKey)
  }

  /** The write phase: new jobs, then new departments, then every employee. */
  function Apply(st: Registry, batch: seq<Employee>): Registry {
    Registry(
      PutAll(st.employees, batch, EmployeeKey),
      PutAll(st.jobs, JobsToAdd(st, batch), JobKey),
      PutAll(st.departments, DepartmentsToAdd(st, batch), DepartmentKey))
  }

  /** `add_employees` on a value: the new state and whether it raised. */
  function Submit(st: Registry, batch: seq<Employee>): (Registry, Outcome<AgendaError>) {
    var outcome := Check(st, batch);
    if outcome.Pass? then (Apply(st, batch), Pass) else (st, outcome)
  }

  /** A batch insert that passes its checks keeps the agenda's invariant. */
  lemma ApplyKeepsInvariant(st: Registry, batch: seq<Employee>)
    requires Invariant(st) && Check(st, batch).Pass?
    ensures Invariant(Apply(st, batch))
  {
    var st' := Apply(st, batch);
    var js, ds := BatchJobs(batch), BatchDepartments(batch);
    PutAllKeysMatch(st.employees, batch, EmployeeKey);
    PutAllKeysMatch(st.jobs, JobsToAdd(st, batch), JobKey);
    PutAllKeysMatch(st.departments, DepartmentsToAdd(st, batch), DepartmentKey);
    forall k | k in st'.employees
      ensures st'.employees[k].job.id in st'.jobs && st'.employees[k].department.id in st'.departments
    {
      if k in KeySet(batch, EmployeeKey) {
        var i :| 0 <= i < |batch| && EmployeeKey(batch[i]) == k;
        var last := LastWithKey(batch, EmployeeKey, i);
        assert st'.employees[k] == batch[last];
        assert JobKey(js[last]) in KeySet(js, JobKey);
        assert DepartmentKey(ds[last]) in KeySet(ds, DepartmentKey);
      }
    }
  }

  /** The agenda object: the three dictionaries are its fields. */
  class EmployeeAgenda {
    var employees: map<int, Employee>
    var jobs: map<int, Job>
    var departments: map<int, Department>

    function State(): Registry
      reads this
    {
      Registry(employees, jobs, departments)
    }

    ghost predicate Valid()
      reads this
    {
      Invariant(State())
    }

    /** `EmployeeAgenda()`: three empty dictionaries. */
    constructor ()
      ensures Valid() && State() == Registry(map[], map[], map[])
    {
      employees, jobs, departments := map[], map[], map[];
    }

    /** `get_job`: the stored job, or `None` for an id never stored. */
    function GetJob(id: int): (r: Option<Job>)
      reads this
      ensures r.Some? <==> id in jobs
      ensures r.Some? ==> r.value == jobs[id]
    {
      if id in jobs then Some(jobs[id]) else None
    }

    /** `get_department`: the stored department, or `None`. */
    function GetDepartment(id: int): (r: Option<Department>)
      reads this
      ensures r.Some? <==> id in departments
      ensures r.Some? ==> r.value == departments[id]
    {
      if id in departments then Some(departments[id]) else None
    }

    /** `get_employee`: the stored employee, or `None`. */
    function GetEmployee(id: int): (r: Option<Employee>)
      reads this
      ensures r.Some? <==> id in employees
      ensures r.Some? ==> r.value == employees[id]
    {
      if id in employees then Some(employees[id]) else None
    }

    /** `size()` */
    function Size(): (nat, nat, nat)
      reads this
    {
      State().Size()
    }

    /** `_add_jobs`: `self._jobs[job.id] = job` for each job, in order. */
    method AddJobs(js: seq<Job>)
      modifies this
      ensures jobs == PutAll(old(jobs), js, JobKey)
      ensures employees == old(employees) && departments == old(departments)
    {
      for i := 0 to |js|
        invariant PutAll(jobs, js[i..], JobKey) == PutAll(old(jobs), js, JobKey)
        invariant employees == old(employees) && departments == old(departments)
      {
        assert js[i..][1..] == js[i + 1..];
        jobs := jobs[js[i].id := js[i]];
      }
    }

    /** `_add_departments`: `self._departments[department.id] = department` for each, in order. */
    method AddDepartments(ds: seq<Department>)
      modifies this
      ensures departments == PutAll(old(departments), ds, DepartmentKey)
      ensures employees == old(employees) && jobs == old(jobs)
    {
      for i := 0 to |ds|
        invariant PutAll(departments, ds[i..], DepartmentKey) == PutAll(old(departments), ds, DepartmentKey)
        invariant employees == old(employees) && jobs == old(jobs)
      {
        assert ds[i..][1..] == ds[i + 1..];
        departments := departments[ds[i].id := ds[i]];
      }
    }

    /** `_add_employees`: `self._employees[employee.id] = employee` for each, in order. */
    method StoreEmployees(batch: seq<Employee>)
      modifies this
      ensures employees == PutAll(old(employees), batch, EmployeeKey)
      ensures jobs == old(jobs) && departments == old(departments)
    {
      for i := 0 to |batch|
        invariant PutAll(employees, batch[i..], EmployeeKey) == PutAll(old(employees), batch, EmployeeKey)
        invariant jobs == old(jobs) && departments == old(departments)
      {
        assert batch[i..][1..] == batch[i + 1..];
        employees := employees[batch[i].id := batch[i]];
      }
    }

    /**
     * The loop of `add_employees` that raises on an employee id already
     * stored: the index of the first such employee, or `|batch|`.
     */
    method FindStoredEmployee(batch: seq<Employee>) returns (found: nat)
      ensures found == FirstPresent(employees, batch, EmployeeKey)
    {
      for i := 0 to |batch|
        invariant forall k :: 0 <= k < i ==> batch[k].id !in employees
      {
        if GetEmployee(batch[i].id).Some? {
          return i;
        }
      }
      return |batch|;
    }

    /**
     * The job consistency loop: the index of the first job stored under its
     * id as a different object (`job_in_agenda != job`), or `|js|`; when there
     * is none, the jobs to be added, in order.
     */
    method CheckJobs(js: seq<Job>) returns (conflict: nat, toAdd: seq<Job>)
      ensures conflict == FirstConflict(jobs, js, JobKey)
      ensures conflict == |js| ==> toAdd == Absent(jobs, js, JobKey)
    {
      toAdd := [];
      for i := 0 to |js|
        invariant forall k :: 0 <= k < i ==> !Conflicts(jobs, js[k], JobKey)
        invariant Absent(jobs, js[..i], JobKey) == toAdd
      {
        var job := js[i];
        assert js[..i + 1] == js[..i] + [job];
        var jobInAgenda := GetJob(job.id);
        if jobInAgenda.Some? {
          if jobInAgenda.value != job {
            return i, toAdd;
          }
        } else {
          toAdd := toAdd + [job];
        }
      }
      assert js[..|js|] == js;
      conflict := |js|;
    }

    /**
     * The department consistency loop: the same as `CheckJobs`, but stored
     * and new departments are compared with `__ne__`, that is by value.
     */
    method CheckDepartments(ds: seq<Department>) returns (conflict: nat, toAdd: seq<Department>)
      ensures conflict == FirstConflict(departments, ds, DepartmentKey)
      ensures conflict == |ds| ==> toAdd == Absent(departments, ds, DepartmentKey)
    {
      toAdd := [];
      for i := 0 to |ds|
        invariant forall k :: 0 <= k < i ==> !Conflicts(departments, ds[k], DepartmentKey)
        invariant Absent(departments, ds[..i], DepartmentKey) == toAdd
      {
        var department := ds[i];
        assert ds[..i + 1] == ds[..i] + [department];
        var departmentInAgenda := GetDepartment(department.id);
        if departmentInAgenda.Some? {
          if Ne(departmentInAgenda.value, department) {
            return i, toAdd;
          }
        } else {
          toAdd := toAdd + [department];
        }
      }
      assert ds[..|ds|] == ds;
      conflict := |ds|;
    }

    /**
     * `add_employees`: the four checks, then the writes. On any failure
     * nothing has been written; on success the state is `Apply` of the old one.
     */
    method AddEmployees(batch: seq<Employee>) returns (r: Outcome<AgendaError>)
      requires Valid()
      modifies this
      ensures Valid()
      ensures (State(), r) == Submit(old(State()), batch)
      ensures r.Fail? ==> employees == old(employees) && jobs == old(jobs) && departments == old(departments)
    {
      if HasDuplicateIds(batch) {
        return Fail(DuplicateIds);
      }
      var stored := FindStoredEmployee(batch);
      if stored < |batch| {
        return Fail(EmployeeExists(batch[stored].id));
      }
      var js := BatchJobs(batch);
      var jobConflict, jobsToAdd := CheckJobs(js);
      if jobConflict < |js| {
        return Fail(JobConflict(js[jobConflict].id));
      }
      var ds := BatchDepartments(batch);
      var departmentConflict, departmentsToAdd := CheckDepartments(ds);
      if departmentConflict < |ds| {
        return Fail(DepartmentConflict(ds[departmentConflict].id));
      }

      ghost var before := State();
      assert Check(before, batch) == Pass;
      AddJobs(jobsToAdd);
      AddDepartments(departmentsToAdd);
      StoreEmployees(batch);
      r := Pass;
      ApplyKeepsInvariant(before, batch);
    }
  }
}
