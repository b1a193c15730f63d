/**
 * The field guards shared by the value objects: each one either passes or
 * names the `ValueError` the constructor raises. A constructor runs its
 * guards in a fixed order and reports the first that fails.
 */
module Guards {
  import opened Wrappers
  import opened Text

  datatype ValidationError =
    | NegativeId(id: int)
    | EmptyName(name: string)
    | NotIsoDate(date: string)

  /** `_fail_if_id_negative` / `_fail_if_negative`: the guard is `id < 0`, so 0 is accepted. */
  function FailIfNegative(id: int): (r: Outcome<ValidationError>)
    ensures r.Pass? <==> id >= 0
    ensures r.Fail? ==> r.error == NegativeId(id)
  {
    if id < 0 then Fail(NegativeId(id)) else Pass
  }

  /** `_fail_if_empty` / `_fail_if_empty_string`: rejects names that `strip()` empties. */
  function FailIfEmpty(name: string): (r: Outcome<ValidationError>)
    ensures r.Pass? <==> !IsBlank(name)
    ensures r.Fail? ==> r.error == EmptyName(name)
  {
    if Strip(name) == "" then Fail(EmptyName(name)) else Pass
  }

  /**
   * `_fail_if_not_iso_format`: `isoDate` stands for "`datetime.strptime(date,
   * "%Y-%m-%d")` returns without raising".
   */
  function FailIfNotIsoFormat(date: string, isoDate: string -> bool): (r: Outcome<ValidationError>)
    ensures r.Pass? <==> isoDate(date)
    ensures r.Fail? ==> r.error == NotIsoDate(date)
  {
    if isoDate(date) then Pass else Fail(NotIsoDate(date))
  }

  /** Runs `first`, and `second` only when `first` passed. */
  function AndThen<E>(first: Outcome<E>, second: Outcome<E>): (r: Outcome<E>)
    ensures r.Pass? <==> first.Pass? && second.Pass?
    ensures first.Fail? ==> r == first
  {
    if first.Fail? then first else second
  }

  /** The guards of `Job` and of `Department`: the id first, then the name. */
  function IdAndNameGuard(id: int, name: string): (r: Outcome<ValidationError>)
    ensures r.Pass? <==> id >= 0 && !IsBlank(name)
    ensures id < 0 ==> r == Fail(NegativeId(id))
    ensures id >= 0 && IsBlank(name) ==> r == Fail(EmptyName(name))
  {
    AndThen(FailIfNegative(id), FailIfEmpty(name))
  }
}
