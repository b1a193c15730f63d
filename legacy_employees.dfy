/**
 * The earlier employee record: id, names and hiring date only. Its guards
 * run in the order hiring date, id, first name, last name.
 */
module LegacyEmployees {
  import opened Wrappers
  import opened Text
  import opened Guards

  datatype Employee = Employee(id: int, firstName: string, lastName: string, hiringDate: string)

  /** `Employee(id, first_name, last_name, hiring_date)`. */
  function NewEmployee(id: int, firstName: string, lastName: string, hiringDate: string,
                       isoDate: string -> bool): (r: Result<Employee, ValidationError>)
    ensures r.Success? <==> isoDate(hiringDate) && id >= 0 && !IsBlank(firstName) && !IsBlank(lastName)
    ensures !isoDate(hiringDate) ==> r == Failure(NotIsoDate(hiringDate))
    ensures isoDate(hiringDate) && id < 0 ==> r == Failure(NegativeId(id))
    ensures isoDate(hiringDate) && id >= 0 && IsBlank(firstName) ==> r == Failure(EmptyName(firstName))
    ensures r.Success? ==>
      r.value.id == id && r.value.firstName == firstName && r.value.lastName == lastName
      && r.value.hiringDate == hiringDate
  {
    var guard := AndThen(FailIfNotIsoFormat(hiringDate, isoDate),
                 AndThen(FailIfNegative(id),
                 AndThen(FailIfEmpty(firstName), FailIfEmpty(lastName))));
    if guard.Fail? then Failure(guard.error)
    else Success(Employee(id, firstName, lastName, hiringDate))
  }
}
