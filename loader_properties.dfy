/**
 * What loading batches guarantees: one message per batch in batch order,
 * the message tells whether that batch was added, a rejected batch leaves
 * the agenda as it was, and it does not stop the batches after it.
 */
module LoaderProperties {
  import opened Wrappers
  import opened Employees
  import opened Agenda
  import opened AgendaProperties
  import opened Loader

  /** The agenda after the first `i` batches. */
  function StateAfter(st: Registry, batches: seq<seq<Employee>>, i: nat): Registry
    requires i <= |batches|
  {
    Replay(st, batches[..i]).0
  }

  /** Exactly one message per batch, carrying that batch's ids in batch order. */
  lemma {:induction false} OneMessagePerBatch(st: Registry, batches: seq<seq<Employee>>)
    ensures |Replay(st, batches).1| == |batches|
    ensures forall i :: 0 <= i < |batches| ==> Replay(st, batches).1[i].ids == Ids(batches[i])
    decreases |batches|
  {
    if batches != [] {
      var init := batches[..|batches| - 1];
      OneMessagePerBatch(st, init);
      var last := batches[|batches| - 1];
      var log := Replay(st, batches).1;
      assert log == Replay(st, init).1 + [Report(last, Submit(Replay(st, init).0, last).1)];
      forall i | 0 <= i < |batches| ensures log[i].ids == Ids(batches[i]) {
        if i < |init| {
          assert log[i] == Replay(st, init).1[i];
          assert batches[i] == init[i];
        } else {
          assert i == |init|;
          assert log[i] == Report(last, Submit(Replay(st, init).0, last).1);
        }
      }
    }
  }

  /** Loading more batches only appends to the log. */
  lemma {:induction false} LogOfPrefix(st: Registry, batches: seq<seq<Employee>>, j: nat)
    requires j <= |batches|
    ensures Replay(st, batches[..j]).1 <= Replay(st, batches).1
    decreases |batches|
  {
    if j < |batches| {
      var init := batches[..|batches| - 1];
      assert init[..j] == batches[..j];
      LogOfPrefix(st, init, j);
    } else {
      assert batches[..j] == batches;
    }
  }

  /**
   * Message `i` reports batch `i` offered to the agenda the first `i` batches
   * left; after it, the agenda is what `add_employees` made of that state.
   */
  lemma Step(st: Registry, batches: seq<seq<Employee>>, i: nat)
    requires i < |batches|
    ensures var step := Submit(StateAfter(st, batches, i), batches[i]);
      && i < |Replay(st, batches).1|
      && Replay(st, batches).1[i] == Report(batches[i], step.1)
      && StateAfter(st, batches, i + 1) == step.0
  {
    var prefix := batches[..i + 1];
    assert prefix[..i] == batches[..i] && prefix[i] == batches[i];
    var before := Replay(st, batches[..i]);
    var step := Submit(before.0, batches[i]);
    assert Replay(st, prefix) == (step.0, before.1 + [Report(batches[i], step.1)]);
    OneMessagePerBatch(st, batches[..i]);
    assert Replay(st, prefix).1[i] == Report(batches[i], step.1);
    LogOfPrefix(st, batches, i + 1);
    OneMessagePerBatch(st, batches);
  }

  /**
   * Message `i` says "Added" exactly when batch `i` passed every check; a
   * rejected batch logs its error and leaves the agenda as it was, and an
   * accepted one is written in full.
   */
  lemma MessageTellsOutcome(st: Registry, batches: seq<seq<Employee>>, i: nat)
    requires i < |batches|
    ensures i < |Replay(st, batches).1|
    ensures var before := StateAfter(st, batches, i);
      && (Replay(st, batches).1[i].Added? <==> Check(before, batches[i]) == Pass)
      && (Check(before, batches[i]).Fail? ==>
            && Replay(st, batches).1[i] == Error(Ids(batches[i]), Check(before, batches[i]).error)
            && StateAfter(st, batches, i + 1) == before)
      && (Check(before, batches[i]) == Pass ==>
            StateAfter(st, batches, i + 1) == Apply(before, batches[i]))
  {
    Step(st, batches, i);
  }

  /** Loading `bs` then `cs` is loading `bs + cs`. */
  lemma {:induction false} ReplayAppend(st: Registry, bs: seq<seq<Employee>>, cs: seq<seq<Employee>>)
    ensures var first := Replay(st, bs);
      var second := Replay(first.0, cs);
      Replay(st, bs + cs) == (second.0, first.1 + second.1)
    decreases |cs|
  {
    if cs != [] {
      var init := cs[..|cs| - 1];
      var last := cs[|cs| - 1];
      assert (bs + cs)[..|bs + cs| - 1] == bs + init;
      assert (bs + cs)[|bs + cs| - 1] == last;
      ReplayAppend(st, bs, init);
      var first := Replay(st, bs);
      var mid := Replay(first.0, init);
      var step := Submit(mid.0, last);
      var message := Report(last, step.1);
      assert Replay(first.0, cs) == (step.0, mid.1 + [message]);
      assert Replay(st, bs + cs) == (step.0, (first.1 + mid.1) + [message]);
      assert (first.1 + mid.1) + [message] == first.1 + (mid.1 + [message]);
    } else {
      assert bs + cs == bs;
      var first := Replay(st, bs);
      assert Replay(first.0, cs) == (first.0, []);
      assert first.1 + [] == first.1;
    }
  }

  /**
   * A rejected batch does not stop the loader: the agenda at the end is the
   * one obtained by loading every batch but that one.
   */
  lemma RejectedBatchIsSkipped(st: Registry, batches: seq<seq<Employee>>, i: nat)
    requires i < |batches| && Check(StateAfter(st, batches, i), batches[i]).Fail?
    ensures Replay(st, batches).0 == Replay(st, batches[..i] + batches[i + 1..]).0
  {
    MessageTellsOutcome(st, batches, i);
    var rest := batches[i + 1..];
    assert batches == batches[..i + 1] + rest;
    ReplayAppend(st, batches[..i + 1], rest);
    ReplayAppend(st, batches[..i], rest);
  }

  /** Loading keeps the agenda's invariant. */
  lemma {:induction false} ReplayKeepsInvariant(st: Registry, batches: seq<seq<Employee>>)
    requires Invariant(st)
    ensures Invariant(Replay(st, batches).0)
    decreases |batches|
  {
    if batches != [] {
      var init := batches[..|batches| - 1];
      ReplayKeepsInvariant(st, init);
      SubmitKeepsInvariant(Replay(st, init).0, batches[|batches| - 1]);
    }
  }

  /**
   * Whatever the later batches hold, an employee, job or department stored
   * before loading is still stored, unchanged, at the end.
   */
  lemma {:induction false} StoredEntriesSurvive(st: Registry, batches: seq<seq<Employee>>)
    ensures var end := Replay(st, batches).0;
      && (forall k :: k in st.employees ==> k in end.employees && end.employees[k] == st.employees[k])
      && (forall k :: k in st.jobs ==> k in end.jobs && end.jobs[k] == st.jobs[k])
      && (forall k :: k in st.departments ==> k in end.departments && end.departments[k] == st.departments[k])
    decreases |batches|
  {
    if batches != [] {
      var init := batches[..|batches| - 1];
      StoredEntriesSurvive(st, init);
      var mid := Replay(st, init).0;
      var last := batches[|batches| - 1];
      StoredEntriesNeverOverwritten(mid, last);
      SubmitKeepsKeys(mid, last);
    }
  }

  /** `add_employees` never removes a key. */
  lemma SubmitKeepsKeys(st: Registry, batch: seq<Employee>)
    ensures st.employees.Keys <= Submit(st, batch).0.employees.Keys
    ensures st.jobs.Keys <= Submit(st, batch).0.jobs.Keys
    ensures st.departments.Keys <= Submit(st, batch).0.departments.Keys
  {
  }
}
