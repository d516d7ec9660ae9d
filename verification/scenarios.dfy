/** End-to-end runs of the reconciliation pass over one or two rows, for any
    drafts, AICs and stores that fit the situation: a matched row, a row
    missing a column, a row without an AIC, and two rows sharing a flow id. */
module Scenarios {
  import opened Wrappers
  import opened Primitives
  import opened Aic
  import opened Subscriptions
  import opened RowDecoding
  import opened CheckSubscriptions

  const NoFaults := Faults(None, None, None, None)

  /** A one-row run whose row is not fatal. */
  lemma OneRowRun(st: Stores, row: Row, env: RowEnv, step: Step)
    requires ProcessRow(st, row, env) == step && !step.outcome.DeleteFailed?
    ensures Run(st, [row], [env]) == Completed(step.stores, [step.outcome])
  {
    assert [row][0] == row && [env][0] == env;
    assert RunFrom(st, [row], [env], 0, []) == RunFrom(step.stores, [row], [env], 1, [step.outcome]);
  }

  /** A two-row run whose rows are not fatal. */
  lemma TwoRowRun(st: Stores, row1: Row, env1: RowEnv, row2: Row, env2: RowEnv, step1: Step, step2: Step)
    requires ProcessRow(st, row1, env1) == step1 && !step1.outcome.DeleteFailed?
    requires ProcessRow(step1.stores, row2, env2) == step2 && !step2.outcome.DeleteFailed?
    ensures Run(st, [row1, row2], [env1, env2]) == Completed(step2.stores, [step1.outcome, step2.outcome])
  {
    var rows, envs := [row1, row2], [env1, env2];
    var log := [step1.outcome, step2.outcome];
    assert rows[0] == row1 && rows[1] == row2 && envs[0] == env1 && envs[1] == env2;
    assert [] + [step1.outcome] == [step1.outcome];
    assert RunFrom(st, rows, envs, 0, []) == RunFrom(step1.stores, rows, envs, 1, [step1.outcome]);
    assert [step1.outcome] + [step2.outcome] == log;
    assert RunFrom(step1.stores, rows, envs, 1, [step1.outcome]) == RunFrom(step2.stores, rows, envs, 2, log);
  }

  /** A fully decodable row whose flow id has exactly one live AIC, with no
      faults, is reconciled: the subscription carries the AIC's id, event
      value and expiry and starts `not_reported`; the AIC moves from the live
      table to the archive. */
  lemma ScenarioMatchedRow(d: Subscription, a: AIC, archive: ArchiveTable, now: Timestamp)
    requires IsDraft(d) && a.flow_id == d.flow_id
    ensures
      var st := Stores(map[a.id := a], archive, map[]);
      var r := Run(st, [RowOf(d)], [RowEnv(d.id, now, NoFaults)]);
      var s := MarkNotReported(AttachAic(d, a), now);
      && r == Completed(Stores(map[], archive + [a], map[d.flow_id := s]), [Reconciled(s)])
      && s.aic_id == Some(a.id) && s.cj_event_value == Some(a.cj_event_value)
      && s.status == Some(NotReported)
  {
    var st := Stores(map[a.id := a], archive, map[]);
    var row := RowOf(d);
    var env := RowEnv(d.id, now, NoFaults);
    var s := MarkNotReported(AttachAic(d, a), now);
    DecodeRowOf(d);
    assert MatchingIds(st.live, d.flow_id) == {a.id};
    assert FetchOneByFlowId(st.live, d.flow_id, None) == Ok(a);
    assert st.live - {a.id} == map[];
    var st' := Stores(map[], archive + [a], map[d.flow_id := s]);
    assert ProcessRow(st, row, env) == Step(st', Reconciled(s));
    OneRowRun(st, row, env, Step(st', Reconciled(s)));
  }

  /** A row that has every required column but `plan_amount` is skipped with a
      decoding error naming that column, whatever the stores hold; no store
      changes. */
  lemma ScenarioMissingPlanAmount(st: Stores, row: Row, id: Uuid, now: Timestamp)
    requires HasColumns(row, RequiredColumns[..8]) && !HasColumn(row, "plan_amount", Int32Kind)
    ensures Run(st, [row], [RowEnv(id, now, NoFaults)])
      == Completed(st, [DecodeFailed(MissingField("plan_amount"))])
  {
    var env := RowEnv(id, now, NoFaults);
    var o := DecodeFailed(MissingField("plan_amount"));
    DecodeSucceedsIffRequiredPresent(row, id);
    FirstMissingAfterPrefix(row, RequiredColumns, 8);
    assert RequiredColumns[8] in RequiredColumns;
    assert MakeSubscriptionFromRow(row, id) == Err(MissingField("plan_amount"));
    assert ProcessRow(st, row, env) == Step(st, o);
    OneRowRun(st, row, env, Step(st, o));
  }

  /** A decodable row whose flow id has no live AIC is skipped with a lookup
      error; no store changes. */
  lemma ScenarioNoAic(st: Stores, d: Subscription, now: Timestamp)
    requires IsDraft(d) && forall k :: k in st.live ==> st.live[k].flow_id != d.flow_id
    ensures Run(st, [RowOf(d)], [RowEnv(d.id, now, NoFaults)]) == Completed(st, [LookupFailed(RowNotFound)])
  {
    var row := RowOf(d);
    var env := RowEnv(d.id, now, NoFaults);
    DecodeRowOf(d);
    assert MatchingIds(st.live, d.flow_id) == {};
    assert ProcessRow(st, row, env) == Step(st, LookupFailed(RowNotFound));
    OneRowRun(st, row, env, Step(st, LookupFailed(RowNotFound)));
  }

  /** With two live AICs for the row's flow id, the one with the smaller id is used. */
  lemma FirstOfTwoReconciles(d: Subscription, a1: AIC, a2: AIC, now: Timestamp)
    requires IsDraft(d) && a1.flow_id == a2.flow_id == d.flow_id && a1.id < a2.id
    ensures
      var st := Stores(map[a1.id := a1, a2.id := a2], [], map[]);
      var s := MarkNotReported(AttachAic(d, a1), now);
      ProcessRow(st, RowOf(d), RowEnv(d.id, now, NoFaults))
        == Step(Stores(map[a2.id := a2], [a1], map[d.flow_id := s]), Reconciled(s))
  {
    var st := Stores(map[a1.id := a1, a2.id := a2], [], map[]);
    DecodeRowOf(d);
    assert MatchingIds(st.live, d.flow_id) == {a1.id, a2.id};
    assert FetchOneByFlowId(st.live, d.flow_id, None) == Ok(a1);
    assert st.live - {a1.id} == map[a2.id := a2];
  }

  /** The second row retires the remaining AIC, then hits the unique constraint. */
  lemma SecondIsDuplicate(d: Subscription, a: AIC, archive: ArchiveTable, subs: SubscriptionTable, now: Timestamp)
    requires IsDraft(d) && a.flow_id == d.flow_id && d.flow_id in subs
    ensures
      var st := Stores(map[a.id := a], archive, subs);
      ProcessRow(st, RowOf(d), RowEnv(d.id, now, NoFaults))
        == Step(Stores(map[], archive + [a], subs), InsertFailed(DuplicateKey))
  {
    var st := Stores(map[a.id := a], archive, subs);
    DecodeRowOf(d);
    assert MatchingIds(st.live, d.flow_id) == {a.id};
    assert FetchOneByFlowId(st.live, d.flow_id, None) == Ok(a);
    assert st.live - {a.id} == map[];
  }

  /** Two rows with the same flow id, each matched to its own AIC: one
      subscription is stored, the second insert is a duplicate-key failure,
      and the run still completes. Both AICs are retired. */
  lemma ScenarioDuplicateFlow(d1: Subscription, d2: Subscription, a1: AIC, a2: AIC, now: Timestamp)
    requires IsDraft(d1) && IsDraft(d2) && d1.flow_id == d2.flow_id
    requires a1.flow_id == a2.flow_id == d1.flow_id && a1.id < a2.id
    ensures
      var st := Stores(map[a1.id := a1, a2.id := a2], [], map[]);
      var s := MarkNotReported(AttachAic(d1, a1), now);
      Run(st, [RowOf(d1), RowOf(d2)], [RowEnv(d1.id, now, NoFaults), RowEnv(d2.id, now, NoFaults)])
        == Completed(Stores(map[], [a1, a2], map[d1.flow_id := s]), [Reconciled(s), InsertFailed(DuplicateKey)])
  {
    var st := Stores(map[a1.id := a1, a2.id := a2], [], map[]);
    var sub1 := MarkNotReported(AttachAic(d1, a1), now);
    var subs1: SubscriptionTable := map[d1.flow_id := sub1];
    var st1 := Stores(map[a2.id := a2], [a1], subs1);
    FirstOfTwoReconciles(d1, a1, a2, now);
    SecondIsDuplicate(d2, a2, [a1], st1.subs, now);
    var st2 := Stores(map[], [a1, a2], st1.subs);
    TwoRowRun(st, RowOf(d1), RowEnv(d1.id, now, NoFaults), RowOf(d2), RowEnv(d2.id, now, NoFaults),
              Step(st1, Reconciled(sub1)), Step(st2, InsertFailed(DuplicateKey)));
  }
}
