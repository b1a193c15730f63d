/**
 * The data loader: it feeds the agenda one batch of employees at a time,
 * logs one telemetry message per batch, and carries on after a batch that
 * the agenda rejects.
 */
module Loader {
  import opened Wrappers
  import opened Employees
  import opened Agenda

  /**
   * A telemetry message: "Added employees [ids]" or "Error adding employees
   * chunk [ids]: reason", with the ids of the batch in batch order.
   */
  datatype Message =
    | Added(ids: seq<int>)
    | Error(ids: seq<int>, reason: AgendaError)

  /** The message logged for a batch after `add_employees` returned or raised. */
  function Report(batch: seq<Employee>, outcome: Outcome<AgendaError>): (m: Message)
    ensures m.ids == Ids(batch)
    ensures m.Added? <==> outcome.Pass?
  {
    if outcome.Pass? then Added(Ids(batch)) else Error(Ids(batch), outcome.error)
  }

  /**
   * The agenda and the log after loading `batches` in order into `st`: each
   * batch is offered to `add_employees` on the state the previous ones left.
   */
  function Replay(st: Registry, batches: seq<seq<Employee>>): (Registry, seq<Message>)
    decreases |batches|
  {
    if batches == [] then (st, [])
    else
      var before := Replay(st, batches[..|batches| - 1]);
      var last := batches[|batches| - 1];
      var step := Submit(before.0, last);
      (step.0, before.1 + [Report(last, step.1)])
  }

  /**
   * `EmployeeAgendaDataLoader.run`: the data source is the sequence of
   * batches it yields, and the telemetry service is the returned log.
   */
  method Run(source: seq<seq<Employee>>, agenda: EmployeeAgenda) returns (log: seq<Message>)
    requires agenda.Valid()
    modifies agenda
    ensures agenda.Valid()
    ensures (agenda.State(), log) == Replay(old(agenda.State()), source)
  {
    log := [];
    for i := 0 to |source|
      invariant agenda.Valid()
      invariant (agenda.State(), log) == Replay(old(agenda.State()), source[..i])
    {
      var chunk := source[i];
      assert source[..i + 1][..i] == source[..i];
      var outcome := agenda.AddEmployees(chunk);
      log := log + [Report(chunk, outcome)];
    }
    assert source[..|source|] == source;
  }

  /** The batches of the list-backed data source: `xs[i:i + n]` for `i` in `range(0, len(xs), n)`. */
  function Chunks<T>(xs: seq<T>, n: nat): (cs: seq<seq<T>>)
    requires n > 0
    ensures forall i :: 0 <= i < |cs| ==> 0 < |cs[i]| <= n
    ensures forall i :: 0 <= i < |cs| - 1 ==> |cs[i]| == n
    ensures Concat(cs) == xs
    decreases |xs|
  {
    if xs == [] then []
    else if |xs| <= n then [xs]
    else
      var rest := Chunks(xs[n..], n);
      ConcatCons(xs[..n], rest);
      assert xs[..n] + xs[n..] == xs;
      [xs[..n]] + rest
  }

  /** The batches joined back together, in order. */
  function Concat<T>(cs: seq<seq<T>>): seq<T>
    decreases |cs|
  {
    if cs == [] then [] else cs[0] + Concat(cs[1..])
  }

  lemma ConcatCons<T>(c: seq<T>, cs: seq<seq<T>>)
    ensures Concat([c] + cs) == c + Concat(cs)
  {
    assert ([c] + cs)[1..] == cs;
  }
}
