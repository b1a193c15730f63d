/**
 * The employee record of the domain package. The class as written takes a
 * `job_id` and a `department_id` (`FlatEmployee`, the shape the older agenda
 * stores); the current agenda reads `employee.job` and `employee.department`
 * and its callers embed the objects themselves (`Employee`). Both shapes are
 * checked by the same guards, in the same order: hiring date, id, job id,
 * department id, first name, last name.
 */
module Employees {
  import opened Wrappers
  import opened Text
  import opened Guards
  import opened Jobs
  import opened Departments

  datatype FlatEmployee = FlatEmployee(
    id: int, firstName: string, lastName: string, hiringDate: string,
    jobId: int, departmentId: int)

  datatype Employee = Employee(
    id: int, firstName: string, lastName: string, hiringDate: string,
    job: Job, department: Department)

  /** The constructor's six guards, in the order the source runs them. */
  function EmployeeGuard(id: int, firstName: string, lastName: string, hiringDate: string,
                         jobId: int, departmentId: int, isoDate: string -> bool): (r: Outcome<ValidationError>)
    ensures r.Pass? <==>
      isoDate(hiringDate) && id >= 0 && jobId >= 0 && departmentId >= 0
      && !IsBlank(firstName) && !IsBlank(lastName)
    ensures !isoDate(hiringDate) ==> r == Fail(NotIsoDate(hiringDate))
    ensures isoDate(hiringDate) && id < 0 ==> r == Fail(NegativeId(id))
    ensures r.Fail? && r.error.EmptyName? ==> isoDate(hiringDate) && id >= 0 && jobId >= 0 && departmentId >= 0
  {
    AndThen(FailIfNotIsoFormat(hiringDate, isoDate),
    AndThen(FailIfNegative(id),
    AndThen(FailIfNegative(jobId),
    AndThen(FailIfNegative(departmentId),
    AndThen(FailIfEmpty(firstName), FailIfEmpty(lastName))))))
  }

  /** `Employee(id, first_name, last_name, hiring_date, job_id, department_id)` as written. */
  function NewFlatEmployee(id: int, firstName: string, lastName: string, hiringDate: string,
                           jobId: int, departmentId: int, isoDate: string -> bool): (r: Result<FlatEmployee, ValidationError>)
    ensures r.Success? <==>
      isoDate(hiringDate) && id >= 0 && jobId >= 0 && departmentId >= 0
      && !IsBlank(firstName) && !IsBlank(lastName)
    ensures !isoDate(hiringDate) ==> r == Failure(NotIsoDate(hiringDate))
    ensures isoDate(hiringDate) && id < 0 ==> r == Failure(NegativeId(id))
    ensures r.Success? ==>
      && r.value.id == id && r.value.firstName == firstName && r.value.lastName == lastName
      && r.value.hiringDate == hiringDate && r.value.jobId == jobId && r.value.departmentId == departmentId
  {
    var guard := EmployeeGuard(id, firstName, lastName, hiringDate, jobId, departmentId, isoDate);
    if guard.Fail? then Failure(guard.error)
    else Success(FlatEmployee(id, firstName, lastName, hiringDate, jobId, departmentId))
  }

  /** The same constructor for the shape the current agenda uses: the job's and department's ids are guarded. */
  function NewEmployee(id: int, firstName: string, lastName: string, hiringDate: string,
                       job: Job, department: Department, isoDate: string -> bool): (r: Result<Employee, ValidationError>)
    ensures r.Success? <==>
      isoDate(hiringDate) && id >= 0 && job.id >= 0 && department.id >= 0
      && !IsBlank(firstName) && !IsBlank(lastName)
    ensures !isoDate(hiringDate) ==> r == Failure(NotIsoDate(hiringDate))
    ensures isoDate(hiringDate) && id < 0 ==> r == Failure(NegativeId(id))
    ensures r.Success? ==>
      && r.value.id == id && r.value.firstName == firstName && r.value.lastName == lastName
      && r.value.hiringDate == hiringDate && r.value.job == job && r.value.department == department
  {
    var guard := EmployeeGuard(id, firstName, lastName, hiringDate, job.id, department.id, isoDate);
    if guard.Fail? then Failure(guard.error)
    else Success(Employee(id, firstName, lastName, hiringDate, job, department))
  }

  /** Dictionary keys: an employee is stored under its own id. */
  function EmployeeKey(e: Employee): int {
    e.id
  }

  function FlatEmployeeKey(e: FlatEmployee): int {
    e.id
  }
}
