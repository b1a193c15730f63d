/**
 * A job: a non-negative id and a non-blank name, fixed at construction.
 * The source class defines no equality, so two jobs are equal only when
 * they are the same object; the model makes `Job` a class to keep that.
 */
module Jobs {
  import opened Wrappers
  import opened Text
  import opened Guards

  class Job {
    const id: int
    const name: string

    /** Allocation of an already-checked job; `NewJob` is the raising constructor. */
    constructor (id: int, name: string)
      requires IdAndNameGuard(id, name).Pass?
      ensures this.id == id && this.name == name
    {
      this.id := id;
      this.name := name;
    }
  }

  /** What the constructor's guards admit. */
  predicate ValidJob(j: Job) {
    j.id >= 0 && !IsBlank(j.name)
  }

  /** `Job(id, name)`: raises on a negative id, then on a blank name; otherwise a new object. */
  method NewJob(id: int, name: string) returns (r: Result<Job, ValidationError>)
    ensures r.Success? <==> id >= 0 && !IsBlank(name)
    ensures id < 0 ==> r == Failure(NegativeId(id))
    ensures id >= 0 && IsBlank(name) ==> r == Failure(EmptyName(name))
    ensures r.Success? ==> fresh(r.value) && ValidJob(r.value)
    ensures r.Success? ==> r.value.id == id && r.value.name == name
  {
    var guard := IdAndNameGuard(id, name);
    if guard.Fail? {
      return Failure(guard.error);
    }
    var job := new Job(id, name);
    r := Success(job);
  }

  /** The dictionary key under which the agendas store a job. */
  function JobKey(j: Job): int {
    j.id
  }
}
