/**
 * The older agenda: single-item inserts that check for an existing id or a
 * missing job or department, and a batch `add` that first validates every
 * list and then commits them item by item through those inserts.
 * Employees here carry job and department ids, not objects.
 */
module LegacyAgenda {
  import opened Wrappers
  import opened Keyed
  import opened Jobs
  import opened Departments
  import opened Employees

  /** The `ValueError`s the agenda raises, each carrying the offending id. */
  datatype LegacyError =
    | EmployeeExists(id: int)
    | JobExists(id: int)
    | DepartmentExists(id: int)
    | MissingJob(id: int)
    | MissingDepartment(id: int)

  /** The three dictionaries of the agenda, as a value. */
  datatype Store = Store(
    employees: map<int, FlatEmployee>,
    jobs: map<int, Job>,
    departments: map<int, Department>)
  {
    /** `size()`: employees, jobs, departments. */
    function Size(): (nat, nat, nat) {
      (|employees|, |jobs|, |departments|)
    }
  }

  /**
   * What the inserts keep true: every entry is stored under its own id, and
   * every employee's job id and department id are stored.
   */
  predicate Invariant(st: Store) {
    && KeysMatch(st.employees, FlatEmployeeKey)
    && KeysMatch(st.jobs, JobKey)
    && KeysMatch(st.departments, DepartmentKey)
    && forall k :: k in st.employees ==>
         st.employees[k].jobId in st.jobs && st.employees[k].departmentId in st.departments
  }

  /** `add_employee` on a value: the new store and whether it raised. */
  function InsertEmployee(st: Store, e: FlatEmployee): (r: (Store, Outcome<LegacyError>))
    ensures r.1 == Pass <==> e.id !in st.employees && e.jobId in st.jobs && e.departmentId in st.departments
    ensures e.id in st.employees ==> r.1 == Fail(EmployeeExists(e.id))
    ensures e.id !in st.employees && e.jobId !in st.jobs ==> r.1 == Fail(MissingJob(e.jobId))
    ensures e.id !in st.employees && e.jobId in st.jobs && e.departmentId !in st.departments ==>
              r.1 == Fail(MissingDepartment(e.departmentId))
    ensures r.1.Fail? ==> r.0 == st
    ensures r.1 == Pass ==> r.0 == st.(employees := st.employees[e.id := e])
    ensures Invariant(st) ==> Invariant(r.0)
  {
    if e.id in st.employees then (st, Fail(EmployeeExists(e.id)))
    else if e.jobId !in st.jobs then (st, Fail(MissingJob(e.jobId)))
    else if e.departmentId !in st.departments then (st, Fail(MissingDepartment(e.departmentId)))
    else (st.(employees := st.employees[e.id := e]), Pass)
  }

  /** `add_job` on a value. */
  function InsertJob(st: Store, j: Job): (r: (Store, Outcome<LegacyError>))
    ensures r.1 == Pass <==> j.id !in st.jobs
    ensures r.1.Fail? ==> r == (st, Fail(JobExists(j.id)))
    ensures r.1 == Pass ==> r.0 == st.(jobs := st.jobs[j.id := j])
    ensures Invariant(st) ==> Invariant(r.0)
  {
    if j.id in st.jobs then (st, Fail(JobExists(j.id)))
    else (st.(jobs := st.jobs[j.id := j]), Pass)
  }

  /** `add_department` on a value. */
  function InsertDepartment(st: Store, d: Department): (r: (Store, Outcome<LegacyError>))
    ensures r.1 == Pass <==> d.id !in st.departments
    ensures r.1.Fail? ==> r == (st, Fail(DepartmentExists(d.id)))
    ensures r.1 == Pass ==> r.0 == st.(departments := st.departments[d.id := d])
    ensures Invariant(st) ==> Invariant(r.0)
  {
    if d.id in st.departments then (st, Fail(DepartmentExists(d.id)))
    else (st.(departments := st.departments[d.id := d]), Pass)
  }

  /**
   * One turn of the employee validation loop of `add`: the id must be new,
   * and the job and department ids must be stored or among the listed ones.
   */
  function EmployeeCheck(st: Store, e: FlatEmployee, js: seq<Job>, ds: seq<Department>): (r: Outcome<LegacyError>)
    ensures r == Pass <==>
      && e.id !in st.employees
      && (e.jobId in st.jobs || e.jobId in KeySet(js, JobKey))
      && (e.departmentId in st.departments || e.departmentId in KeySet(ds, DepartmentKey))
    ensures e.id in st.employees ==> r == Fail(EmployeeExists(e.id))
  {
    if e.id in st.employees then Fail(EmployeeExists(e.id))
    else if e.jobId !in st.jobs && e.jobId !in KeySet(js, JobKey) then Fail(MissingJob(e.jobId))
    else if e.departmentId !in st.departments && e.departmentId !in KeySet(ds, DepartmentKey) then
      Fail(MissingDepartment(e.departmentId))
    else Pass
  }

  /** Index of the first employee that fails its check, or `|es|`. */
  function FirstUnplaceable(st: Store, es: seq<FlatEmployee>, js: seq<Job>, ds: seq<Department>): (r: nat)
    ensures r <= |es|
    ensures forall k :: 0 <= k < r ==> EmployeeCheck(st, es[k], js, ds) == Pass
    ensures r < |es| ==> EmployeeCheck(st, es[r], js, ds).Fail?
    decreases |es|
  {
    if es == [] || EmployeeCheck(st, es[0], js, ds).Fail? then 0
    else 1 + FirstUnplaceable(st, es[1..], js, ds)
  }

  /**
   * The three validation loops of `add`, in order: listed jobs, listed
   * departments, then employees; the first failing check decides the error.
   */
  function Validate(st: Store, es: seq<FlatEmployee>, js: seq<Job>, ds: seq<Department>): Outcome<LegacyError> {
    var i := FirstPresent(st.jobs, js, JobKey);
    if i < |js| then Fail(JobExists(js[i].id))
    else
      var k := FirstPresent(st.departments, ds, DepartmentKey);
      if k < |ds| then Fail(DepartmentExists(ds[k].id))
      else
        var n := FirstUnplaceable(st, es, js, ds);
        if n < |es| then EmployeeCheck(st, es[n], js, ds) else Pass
  }

  /**
   * A commit loop of `add`: insert the items in order and stop at the first
   * insert that raises, keeping whatever was inserted before it.
   */
  function CommitAll<T>(st: Store, xs: seq<T>, insert: (Store, T) -> (Store, Outcome<LegacyError>)): (Store, Outcome<LegacyError>)
    decreases |xs|
  {
    if xs == [] then (st, Pass)
    else
      var step := insert(st, xs[0]);
      if step.1.Fail? then step else CommitAll(step.0, xs[1..], insert)
  }

  /** `add` on a value: validate, then commit jobs, departments and employees. */
  function AddAll(st: Store, es: seq<FlatEmployee>, js: seq<Job>, ds: seq<Department>): (Store, Outcome<LegacyError>) {
    var checked := Validate(st, es, js, ds);
    if checked.Fail? then (st, checked)
    else
      var afterJobs := CommitAll(st, js, InsertJob);
      if afterJobs.1.Fail? then afterJobs
      else
        var afterDepartments := CommitAll(afterJobs.0, ds, InsertDepartment);
        if afterDepartments.1.Fail? then afterDepartments
        else CommitAll(afterDepartments.0, es, InsertEmployee)
  }

  /** A commit loop whose every insert keeps the invariant keeps it too. */
  lemma {:induction false} CommitAllKeepsInvariant<T>(st: Store, xs: seq<T>, insert: (Store, T) -> (Store, Outcome<LegacyError>))
    requires Invariant(st)
    requires forall s, x :: Invariant(s) ==> Invariant(insert(s, x).0)
    ensures Invariant(CommitAll(st, xs, insert).0)
    decreases |xs|
  {
    if xs != [] {
      var step := insert(st, xs[0]);
      if step.1 == Pass {
        CommitAllKeepsInvariant(step.0, xs[1..], insert);
      }
    }
  }

  /** The agenda object: the three dictionaries are its fields. */
  class EmployeeAgenda {
    var employees: map<int, FlatEmployee>
    var jobs: map<int, Job>
    var departments: map<int, Department>

    function State(): Store
      reads this
    {
      Store(employees, jobs, departments)
    }

    ghost predicate Valid()
      reads this
    {
      Invariant(State())
    }

    /** `EmployeeAgenda()`: three empty dictionaries. */
    constructor ()
      ensures Valid() && State() == Store(map[], map[], map[])
    {
      employees, jobs, departments := map[], map[], map[];
    }

    /** `get_job`: the stored job, or `None`. */
    function GetJob(id: int): (r: Option<Job>)
      reads this
      ensures r.Some? <==> id in jobs
      ensures r.Some? ==> r.value == jobs[id]
    {
      if id in jobs then Some(jobs[id]) else None
    }

    /** `get_department`: the stored department, or `None`. */
    function GetDepartment(id: int): (r: Option<Department>)
      reads this
      ensures r.Some? <==> id in departments
      ensures r.Some? ==> r.value == departments[id]
    {
      if id in departments then Some(departments[id]) else None
    }

    /** `get_employee`: the stored employee, or `None`. */
    function GetEmployee(id: int): (r: Option<FlatEmployee>)
      reads this
      ensures r.Some? <==> id in employees
      ensures r.Some? ==> r.value == employees[id]
    {
      if id in employees then Some(employees[id]) else None
    }

    /** `size()` */
    function Size(): (nat, nat, nat)
      reads this
    {
      State().Size()
    }

    /** `add_employee` */
    method AddEmployee(e: FlatEmployee) returns (r: Outcome<LegacyError>)
      requires Valid()
      modifies this
      ensures Valid()
      ensures (State(), r) == InsertEmployee(old(State()), e)
    {
      if e.id in employees {
        return Fail(EmployeeExists(e.id));
      }
      if e.jobId !in jobs {
        return Fail(MissingJob(e.jobId));
      }
      if e.departmentId !in departments {
        return Fail(MissingDepartment(e.departmentId));
      }
      employees := employees[e.id := e];
      r := Pass;
    }

    /** `add_job` */
    method AddJob(j: Job) returns (r: Outcome<LegacyError>)
      requires Valid()
      modifies this
      ensures Valid()
      ensures (State(), r) == InsertJob(old(State()), j)
    {
      if j.id in jobs {
        return Fail(JobExists(j.id));
      }
      jobs := jobs[j.id := j];
      r := Pass;
    }

    /** `add_department` */
    method AddDepartment(d: Department) returns (r: Outcome<LegacyError>)
      requires Valid()
      modifies this
      ensures Valid()
      ensures (State(), r) == InsertDepartment(old(State()), d)
    {
      if d.id in departments {
        return Fail(DepartmentExists(d.id));
      }
      departments := departments[d.id := d];
      r := Pass;
    }

    /**
     * The validation loops of `add`. A stored object is truthy, so
     * `if self.get_job(id)` holds exactly when the id is stored.
     */
    method ValidateLists(es: seq<FlatEmployee>, js: seq<Job>, ds: seq<Department>) returns (r: Outcome<LegacyError>)
      ensures r == Validate(State(), es, js, ds)
    {
      for i := 0 to |js|
        invariant forall k :: 0 <= k < i ==> js[k].id !in jobs
      {
        if GetJob(js[i].id).Some? {
          return Fail(JobExists(js[i].id));
        }
      }
      for i := 0 to |ds|
        invariant forall k :: 0 <= k < i ==> ds[k].id !in departments
      {
        if GetDepartment(ds[i].id).Some? {
          return Fail(DepartmentExists(ds[i].id));
        }
      }
      var jobIds := KeySet(js, JobKey);
      var departmentIds := KeySet(ds, DepartmentKey);
      for i := 0 to |es|
        invariant forall k :: 0 <= k < i ==> EmployeeCheck(State(), es[k], js, ds) == Pass
      {
        var e := es[i];
        if GetEmployee(e.id).Some? {
          return Fail(EmployeeExists(e.id));
        }
        if GetJob(e.jobId).None? && e.jobId !in jobIds {
          return Fail(MissingJob(e.jobId));
        }
        if GetDepartment(e.departmentId).None? && e.departmentId !in departmentIds {
          return Fail(MissingDepartment(e.departmentId));
        }
      }
      return Pass;
    }

    /** `for job in jobs: self.add_job(job)` */
    method CommitJobs(js: seq<Job>) returns (r: Outcome<LegacyError>)
      requires Valid()
      modifies this
      ensures Valid()
      ensures (State(), r) == CommitAll(old(State()), js, InsertJob)
    {
      r := Pass;
      for i := 0 to |js|
        invariant Valid() && r == Pass
        invariant CommitAll(State(), js[i..], InsertJob) == CommitAll(old(State()), js, InsertJob)
      {
        assert js[i..][1..] == js[i + 1..];
        r := AddJob(js[i]);
        if r.Fail? {
          return;
        }
      }
    }

    /** `for department in departments: self.add_department(department)` */
    method CommitDepartments(ds: seq<Department>) returns (r: Outcome<LegacyError>)
      requires Valid()
      modifies this
      ensures Valid()
      ensures (State(), r) == CommitAll(old(State()), ds, InsertDepartment)
    {
      r := Pass;
      for i := 0 to |ds|
        invariant Valid() && r == Pass
        invariant CommitAll(State(), ds[i..], InsertDepartment) == CommitAll(old(State()), ds, InsertDepartment)
      {
        assert ds[i..][1..] == ds[i + 1..];
        r := AddDepartment(ds[i]);
        if r.Fail? {
          return;
        }
      }
    }

    /** `for employee in employees: self.add_employee(employee)` */
    method CommitEmployees(es: seq<FlatEmployee>) returns (r: Outcome<LegacyError>)
      requires Valid()
      modifies this
      ensures Valid()
      ensures (State(), r) == CommitAll(old(State()), es, InsertEmployee)
    {
      r := Pass;
      for i := 0 to |es|
        invariant Valid() && r == Pass
        invariant CommitAll(State(), es[i..], InsertEmployee) == CommitAll(old(State()), es, InsertEmployee)
      {
        assert es[i..][1..] == es[i + 1..];
        r := AddEmployee(es[i]);
        if r.Fail? {
          return;
        }
      }
    }

    /** `add(employees, jobs, departments)` */
    method Add(es: seq<FlatEmployee>, js: seq<Job>, ds: seq<Department>) returns (r: Outcome<LegacyError>)
      requires Valid()
      modifies this
      ensures Valid()
      ensures (State(), r) == AddAll(old(State()), es, js, ds)
    {
      r := ValidateLists(es, js, ds);
      if r.Fail? {
        return;
      }
      r := CommitJobs(js);
      if r.Fail? {
        return;
      }
      r := CommitDepartments(ds);
      if r.Fail? {
        return;
      }
      r := CommitEmployees(es);
    }
  }
}
