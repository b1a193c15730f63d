/**
 * A department: a non-negative id and a non-blank name. Unlike `Job`, it
 * defines `__eq__` and `__ne__` over both fields, so it is a value.
 */
module Departments {
  import opened Wrappers
  import opened Text
  import opened Guards

  datatype Department = Department(id: int, name: string)

  /** What the constructor's guards admit. */
  predicate ValidDepartment(d: Department) {
    d.id >= 0 && !IsBlank(d.name)
  }

  /** `Department(id, name)`: raises on a negative id, then on a blank name. */
  function NewDepartment(id: int, name: string): (r: Result<Department, ValidationError>)
    ensures r.Success? <==> id >= 0 && !IsBlank(name)
    ensures id < 0 ==> r == Failure(NegativeId(id))
    ensures id >= 0 && IsBlank(name) ==> r == Failure(EmptyName(name))
    ensures r.Success? ==> ValidDepartment(r.value) && r.value.id == id && r.value.name == name
  {
    var guard := IdAndNameGuard(id, name);
    if guard.Fail? then Failure(guard.error) else Success(Department(id, name))
  }

  /** `__eq__`: equal ids and equal names, which is exactly equality of the values. */
  function Eq(a: Department, b: Department): (r: bool)
    ensures r <==> a == b
  {
    a.id == b.id && a.name == b.name
  }

  /** `__ne__`: the negation of `__eq__`. */
  function Ne(a: Department, b: Department): (r: bool)
    ensures r <==> a != b
    ensures r <==> a.id != b.id || a.name != b.name
  {
    !Eq(a, b)
  }

  /** The dictionary key under which the agendas store a department. */
  function DepartmentKey(d: Department): int {
    d.id
  }
}
