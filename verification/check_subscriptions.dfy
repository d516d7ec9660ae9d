/** The reconciliation pass (`fetch_and_process_new_subscriptions` in
    src/lib/check_subscriptions.rs): each warehouse row is decoded, matched to
    its live AIC, the AIC is retired into the archive, and the enriched
    subscription is inserted. Every failure skips the row, except a failed
    delete after a successful archive write, which ends the run. */
module CheckSubscriptions {
  import opened Wrappers
  import opened Primitives
  import opened Aic
  import opened Subscriptions
  import opened RowDecoding

  /** Which store calls fail while one row is processed, and how. */
  datatype Faults = Faults(
    lookup: Option<DbError>,
    archive: Option<DbError>,
    delete: Option<DbError>,
    insert: Option<DbError>)

  /** What the outside world supplies for one row: the UUID generated for the
      subscription, the clock reading for its status history, and the faults. */
  datatype RowEnv = RowEnv(fresh_id: Uuid, now: Timestamp, faults: Faults)

  /** The three tables the pass touches. */
  datatype Stores = Stores(live: AicTable, archive: ArchiveTable, subs: SubscriptionTable)

  /** How an insert error is logged: duplicate key, other database error, anything else. */
  datatype InsertFailure = DuplicateKey | DatabaseFailure(code: string) | UnexpectedFailure

  /** What became of one row. */
  datatype RowOutcome =
    | Reconciled(sub: Subscription)
    | DecodeFailed(decode_error: DecodeError)
    | LookupFailed(lookup_error: DbError)
    | ArchiveFailed(archive_error: DbError)
    | DeleteFailed(delete_error: DbError)
    | InsertFailed(insert_failure: InsertFailure)

  /** A skipped row whose skip left every store as it was. */
  predicate SkippedUntouched(o: RowOutcome) {
    o.DecodeFailed? || o.LookupFailed? || o.ArchiveFailed?
  }

  function ClassifyInsertError(e: DbError): (k: InsertFailure)
    ensures k == DuplicateKey <==> e == Database(UniqueViolationCode)
    ensures k.DatabaseFailure? <==> e.Database? && e.code != UniqueViolationCode
    ensures k.DatabaseFailure? ==> k.code == e.code
    ensures k == UnexpectedFailure <==> !e.Database?
  {
    match e
    case Database(code) => if code == UniqueViolationCode then DuplicateKey else DatabaseFailure(code)
    case _ => UnexpectedFailure
  }

  // ---------------------------------------------------------------------------
  // Stages

  /** Copy the matched AIC's id, event value and expiry onto the draft. */
  function AttachAic(draft: Subscription, a: AIC): (s: Subscription)
    ensures s.aic_id == Some(a.id)
    ensures s.cj_event_value == Some(a.cj_event_value)
    ensures s.aic_expires == Some(a.expires)
    ensures s.(aic_id := draft.aic_id, cj_event_value := draft.cj_event_value,
               aic_expires := draft.aic_expires) == draft
  {
    draft.(aic_id := Some(a.id), cj_event_value := Some(a.cj_event_value), aic_expires := Some(a.expires))
  }

  /** Stamp the `not_reported` status and seed the history with it. */
  function MarkNotReported(s: Subscription, now: Timestamp): (s': Subscription)
    ensures s'.status == Some(NotReported) && StatusMatchesHistory(s')
    ensures s'.status_history == Some([StatusEntry(NotReported, now)])
    ensures s'.(status := s.status, status_history := s.status_history) == s
  {
    s.(status := Some(NotReported), status_history := Some([StatusEntry(NotReported, now)]))
  }

  /** Retiring an AIC: archive it, then delete it from the live table. */
  datatype Retirement =
    | Retired(live: AicTable, archive: ArchiveTable)
    | ArchiveWriteFailed(error: DbError)
    | DeleteAfterArchiveFailed(archive: ArchiveTable, error: DbError)

  function RetireAic(live: AicTable, archive: ArchiveTable, a: AIC, faults: Faults): (r: Retirement)
    ensures r.ArchiveWriteFailed? <==> faults.archive.Some?
    ensures r.Retired? <==> faults.archive.None? && faults.delete.None?
    ensures r.ArchiveWriteFailed? ==> r.error == faults.archive.value
    ensures r.DeleteAfterArchiveFailed? ==> r.error == faults.delete.value
    ensures !r.ArchiveWriteFailed? ==> r.archive == archive + [a]
    ensures r.Retired? ==> a.id !in r.live && r.live.Keys == live.Keys - {a.id}
    ensures r.Retired? ==> forall k :: k in r.live ==> r.live[k] == live[k]
  {
    match CreateFromAic(archive, a, faults.archive)
    case Err(e) => ArchiveWriteFailed(e)
    case Ok((archive', toDelete)) =>
      assert archive' == archive + [a];
      match Delete(live, toDelete.id, faults.delete)
      case Err(e) => DeleteAfterArchiveFailed(archive', e)
      case Ok(live') => Retired(live', archive')
  }

  datatype Step = Step(stores: Stores, outcome: RowOutcome)

  /** The record this step appended to the archive. */
  function LastArchived(st: Stores): AIC
    requires |st.archive| > 0
  {
    st.archive[|st.archive| - 1]
  }

  /** `st'` is `st` with one record of the live table appended to the archive. */
  predicate ArchivedOne(st: Stores, st': Stores) {
    && |st'.archive| == |st.archive| + 1
    && st'.archive[..|st.archive|] == st.archive
    && LastArchived(st').id in st.live
    && st.live[LastArchived(st').id] == LastArchived(st')
  }

  /** ... and also removed from the live table. */
  predicate RetiredOne(st: Stores, st': Stores) {
    && ArchivedOne(st, st')
    && st'.live.Keys == st.live.Keys - {LastArchived(st').id}
    && forall k :: k in st'.live ==> st'.live[k] == st.live[k]
  }

  /** The stored effect of a reconciled subscription `s`: inserted under its
      flow id, which was free, and nothing else in the table changed. */
  predicate InsertedFresh(subs: SubscriptionTable, subs': SubscriptionTable, s: Subscription) {
    && s.flow_id !in subs
    && subs'.Keys == subs.Keys + {s.flow_id} && subs'[s.flow_id] == s
    && forall f :: f in subs ==> subs'[f] == subs[f]
  }

  /** The last stage: stamp the status and insert, after the AIC is retired. */
  function WriteSubscription(retired: Stores, sub: Subscription, env: RowEnv): (r: Step)
    ensures r.outcome.InsertFailed? || r.outcome.Reconciled?
    ensures r.stores.live == retired.live && r.stores.archive == retired.archive
    ensures r.outcome.InsertFailed? ==> r.stores.subs == retired.subs
    ensures env.faults.insert.Some? ==>
      r.outcome == InsertFailed(ClassifyInsertError(env.faults.insert.value))
    ensures env.faults.insert.None? ==> (r.outcome.Reconciled? <==> sub.flow_id !in retired.subs)
    ensures r.outcome.InsertFailed? && env.faults.insert.None? ==>
      r.outcome.insert_failure == DuplicateKey && sub.flow_id in retired.subs
    ensures r.outcome.Reconciled? ==>
      var s := r.outcome.sub;
      && InsertedFresh(retired.subs, r.stores.subs, s)
      && s.(status := sub.status, status_history := sub.status_history) == sub
      && s.status == Some(NotReported) && s.status_history == Some([StatusEntry(NotReported, env.now)])
  {
    var sub' := MarkNotReported(sub, env.now);
    match CreateFromSub(retired.subs, sub', env.faults.insert)
    case Err(e) => Step(retired, InsertFailed(ClassifyInsertError(e)))
    case Ok(subs') => Step(retired.(subs := subs'), Reconciled(sub'))
  }

  /** Which outcome a decoded row with flow id `flow_id` gets: the first store
      call that fails decides it, in the order the calls are made (lookup,
      archive write, delete, insert). The cases are disjoint and cover every
      combination of faults, so the outcome's kind and error are fixed by them. */
  predicate OutcomeFollowsFaults(st: Stores, flow_id: string, env: RowEnv, o: RowOutcome) {
    var f := env.faults;
    && (f.lookup.Some? ==> o == LookupFailed(f.lookup.value))
    && (f.lookup.None? && !HasLiveAic(st.live, flow_id) ==> o == LookupFailed(RowNotFound))
    && (f.lookup.None? && HasLiveAic(st.live, flow_id) ==>
          && (f.archive.Some? ==> o == ArchiveFailed(f.archive.value))
          && (f.archive.None? && f.delete.Some? ==> o == DeleteFailed(f.delete.value))
          && (f.archive.None? && f.delete.None? && f.insert.Some? ==>
                o == InsertFailed(ClassifyInsertError(f.insert.value)))
          && (f.archive.None? && f.delete.None? && f.insert.None? ==>
                if flow_id in st.subs then o == InsertFailed(DuplicateKey) else o.Reconciled?))
  }

  /** Everything after decoding: resolve the AIC, retire it, write the subscription. */
  function ReconcileDraft(st: Stores, draft: Subscription, env: RowEnv): (r: Step)
    ensures OutcomeFollowsFaults(st, draft.flow_id, env, r.outcome)
    ensures !r.outcome.DecodeFailed?
    ensures SkippedUntouched(r.outcome) ==> r.stores == st
    ensures r.outcome.DeleteFailed? ==>
      && ArchivedOne(st, r.stores) && r.stores.live == st.live && r.stores.subs == st.subs
      && LastArchived(r.stores).flow_id == draft.flow_id
    ensures r.outcome.InsertFailed? || r.outcome.Reconciled? ==>
      RetiredOne(st, r.stores) && LastArchived(r.stores).flow_id == draft.flow_id
    ensures r.outcome.InsertFailed? ==> r.stores.subs == st.subs
    ensures r.outcome.Reconciled? ==>
      var s := r.outcome.sub;
      var a := LastArchived(r.stores);
      && InsertedFresh(st.subs, r.stores.subs, s)
      && s.(aic_id := draft.aic_id, aic_expires := draft.aic_expires,
            cj_event_value := draft.cj_event_value, status := draft.status,
            status_history := draft.status_history) == draft
      && s.aic_id == Some(a.id) && s.cj_event_value == Some(a.cj_event_value)
      && s.aic_expires == Some(a.expires)
      && s.status == Some(NotReported) && s.status_history == Some([StatusEntry(NotReported, env.now)])
  {
    match FetchOneByFlowId(st.live, draft.flow_id, env.faults.lookup)
    case Err(e) => Step(st, LookupFailed(e))
    case Ok(a) =>
      match RetireAic(st.live, st.archive, a, env.faults)
      case ArchiveWriteFailed(e) => Step(st, ArchiveFailed(e))
      case DeleteAfterArchiveFailed(archive', e) =>
        var r := Step(st.(archive := archive'), DeleteFailed(e));
        assert LastArchived(r.stores) == a;
        r
      case Retired(live', archive') =>
        var r := WriteSubscription(Stores(live', archive', st.subs), AttachAic(draft, a), env);
        assert LastArchived(r.stores) == a;
        r
  }

  /** One iteration of the loop body, for one row. */
  function ProcessRow(st: Stores, row: Row, env: RowEnv): (r: Step)
  {
    match MakeSubscriptionFromRow(row, env.fresh_id)
    case Err(e) => Step(st, DecodeFailed(e))
    case Ok(draft) => ReconcileDraft(st, draft, env)
  }

  /** The per-row state machine: which outcome leaves which stores. A row
      that fails to decode, to resolve or to archive changes nothing; a failed
      delete leaves the snapshot archived and the record live; otherwise the
      AIC is retired, and the subscription inserted unless the insert fails. */
  lemma ProcessRowContract(st: Stores, row: Row, env: RowEnv)
    ensures var r := ProcessRow(st, row, env);
      && (r.outcome.DecodeFailed? <==> !HasRequiredColumns(row))
      && (HasRequiredColumns(row) ==> OutcomeFollowsFaults(st, row["flow_id"].s, env, r.outcome))
      && (SkippedUntouched(r.outcome) ==> r.stores == st)
      && (r.outcome.DeleteFailed? ==>
            && ArchivedOne(st, r.stores) && r.stores.live == st.live && r.stores.subs == st.subs
            && LastArchived(r.stores).flow_id == row["flow_id"].s)
      && (r.outcome.InsertFailed? || r.outcome.Reconciled? ==>
            RetiredOne(st, r.stores) && LastArchived(r.stores).flow_id == row["flow_id"].s)
      && (r.outcome.InsertFailed? ==> r.stores.subs == st.subs)
      && (r.outcome.Reconciled? ==>
            var s := r.outcome.sub;
            var a := LastArchived(r.stores);
            && InsertedFresh(st.subs, r.stores.subs, s)
            && MakeSubscriptionFromRow(row, env.fresh_id).Ok?
            && s.(aic_id := None, aic_expires := None, cj_event_value := None,
                  status := None, status_history := None)
               == MakeSubscriptionFromRow(row, env.fresh_id).value
            && s.id == env.fresh_id && s.flow_id == a.flow_id
            && s.aic_id == Some(a.id) && s.cj_event_value == Some(a.cj_event_value)
            && s.aic_expires == Some(a.expires)
            && s.status == Some(NotReported) && s.status_history == Some([StatusEntry(NotReported, env.now)]))
  {
    DecodeSucceedsIffRequiredPresent(row, env.fresh_id);
    if MakeSubscriptionFromRow(row, env.fresh_id).Ok? {
      DecodeKeepsColumns(row, env.fresh_id);
    }
  }

  /** A row whose flow id already has a subscription is never inserted again:
      without an injected fault, reaching the insert means a duplicate-key failure. */
  lemma DuplicateFlowRejected(st: Stores, row: Row, env: RowEnv)
    requires HasRequiredColumns(row) && row["flow_id"].s in st.subs
    ensures var r := ProcessRow(st, row, env);
      && !r.outcome.Reconciled?
      && r.stores.subs == st.subs
      && (r.outcome.InsertFailed? && env.faults.insert.None? ==> r.outcome.insert_failure == DuplicateKey)
  {
    ProcessRowContract(st, row, env);
  }

  // ---------------------------------------------------------------------------
  // The driver

  /** How a run ends: after the last row, or at the row whose delete failed.
      `log` holds the outcome of every row processed, in order. */
  datatype RunResult =
    | Completed(stores: Stores, log: seq<RowOutcome>)
    | Fatal(stores: Stores, log: seq<RowOutcome>, row: nat)

  /** The loop from row `i` on, with `st` and `log` as left by rows `0..i`. */
  function RunFrom(st: Stores, rows: seq<Row>, envs: seq<RowEnv>, i: nat, log: seq<RowOutcome>): RunResult
    requires |envs| == |rows| && i <= |rows|
    decreases |rows| - i
  {
    if i == |rows| then Completed(st, log)
    else
      var step := ProcessRow(st, rows[i], envs[i]);
      if step.outcome.DeleteFailed? then Fatal(step.stores, log + [step.outcome], i)
      else RunFrom(step.stores, rows, envs, i + 1, log + [step.outcome])
  }

  /** The whole pass over the cursor's rows; `envs[i]` is what the outside
      world supplies while row `i` is processed. */
  function Run(st: Stores, rows: seq<Row>, envs: seq<RowEnv>): RunResult
    requires |envs| == |rows|
  {
    RunFrom(st, rows, envs, 0, [])
  }

  /** `fetch_and_process_new_subscriptions`: the `while rs.next_row()` loop. */
  method FetchAndProcessNewSubscriptions(st: Stores, rows: seq<Row>, envs: seq<RowEnv>) returns (r: RunResult)
    requires |envs| == |rows|
    ensures r == Run(st, rows, envs)
  {
    var stores := st;
    var log: seq<RowOutcome> := [];
    var i := 0;
    while i < |rows|
      invariant i <= |rows|
      invariant RunFrom(stores, rows, envs, i, log) == Run(st, rows, envs)
    {
      var step := ProcessRow(stores, rows[i], envs[i]);
      log := log + [step.outcome];
      if step.outcome.DeleteFailed? {
        return Fatal(step.stores, log, i);
      }
      stores := step.stores;
      i := i + 1;
    }
    return Completed(stores, log);
  }

  // ---------------------------------------------------------------------------
  // Properties of a run

  /** A run logs one outcome per processed row. It completes only after every
      row, none of them fatal; it stops at the first failed delete. */
  lemma {:induction false} RunFromShape(st: Stores, rows: seq<Row>, envs: seq<RowEnv>, i: nat, log: seq<RowOutcome>)
    requires |envs| == |rows| && i <= |rows|
    requires |log| == i && forall j :: 0 <= j < i ==> !log[j].DeleteFailed?
    ensures var r := RunFrom(st, rows, envs, i, log);
      && |r.log| >= i && r.log[..i] == log
      && (r.Completed? ==> |r.log| == |rows| && forall j :: 0 <= j < |rows| ==> !r.log[j].DeleteFailed?)
      && (r.Fatal? ==>
            && i <= r.row < |rows| && |r.log| == r.row + 1 && r.log[r.row].DeleteFailed?
            && forall j :: 0 <= j < r.row ==> !r.log[j].DeleteFailed?)
    decreases |rows| - i
  {
    if i < |rows| {
      var step := ProcessRow(st, rows[i], envs[i]);
      var log' := log + [step.outcome];
      if !step.outcome.DeleteFailed? {
        RunFromShape(step.stores, rows, envs, i + 1, log');
        var r := RunFrom(step.stores, rows, envs, i + 1, log');
        assert r.log[..i] == r.log[..i + 1][..i];
      }
    }
  }

  lemma RunShape(st: Stores, rows: seq<Row>, envs: seq<RowEnv>)
    requires |envs| == |rows|
    ensures var r := Run(st, rows, envs);
      && (r.Completed? ==> |r.log| == |rows| && forall j :: 0 <= j < |rows| ==> !r.log[j].DeleteFailed?)
      && (r.Fatal? ==>
            && r.row < |rows| && |r.log| == r.row + 1 && r.log[r.row].DeleteFailed?
            && forall j :: 0 <= j < r.row ==> !r.log[j].DeleteFailed?)
  {
    RunFromShape(st, rows, envs, 0, []);
  }

  /** Appending rows to the cursor only continues a completed run. */
  lemma {:induction false} RunFromExtend(
    st: Stores, rows: seq<Row>, envs: seq<RowEnv>, more: seq<Row>, moreEnvs: seq<RowEnv>,
    i: nat, log: seq<RowOutcome>)
    requires |envs| == |rows| && |moreEnvs| == |more| && i <= |rows|
    ensures var r := RunFrom(st, rows, envs, i, log);
      RunFrom(st, rows + more, envs + moreEnvs, i, log) ==
        if r.Fatal? then r else RunFrom(r.stores, rows + more, envs + moreEnvs, |rows|, r.log)
    decreases |rows| - i
  {
    if i < |rows| {
      assert (rows + more)[i] == rows[i] && (envs + moreEnvs)[i] == envs[i];
      var step := ProcessRow(st, rows[i], envs[i]);
      if !step.outcome.DeleteFailed? {
        RunFromExtend(step.stores, rows, envs, more, moreEnvs, i + 1, log + [step.outcome]);
      }
    }
  }

  /** After a fatal row no later row is processed: whatever follows it on the
      cursor, the run ends the same way. */
  lemma RunFatalIgnoresLaterRows(st: Stores, rows: seq<Row>, envs: seq<RowEnv>, more: seq<Row>, moreEnvs: seq<RowEnv>)
    requires |envs| == |rows| && |moreEnvs| == |more|
    requires Run(st, rows, envs).Fatal?
    ensures Run(st, rows + more, envs + moreEnvs) == Run(st, rows, envs)
  {
    RunFromExtend(st, rows, envs, more, moreEnvs, 0, []);
  }

  /** A subscription this run inserted: stamped `not_reported` once, carrying
      the id, event value and expiry of an AIC that was live when the run began,
      had the same flow id, and has since left the live table `live`. */
  predicate NewlyReconciled(st0: Stores, live: AicTable, s: Subscription) {
    && s.status == Some(NotReported) && StatusMatchesHistory(s)
    && |s.status_history.value| == 1
    && s.aic_id.Some? && s.aic_id.value in st0.live && s.aic_id.value !in live
    && s.cj_event_value == Some(st0.live[s.aic_id.value].cj_event_value)
    && s.aic_expires == Some(st0.live[s.aic_id.value].expires)
    && st0.live[s.aic_id.value].flow_id == s.flow_id
  }

  /** The live table only loses records. */
  predicate LiveShrinks(st0: Stores, st: Stores) {
    forall k :: k in st.live ==> k in st0.live && st.live[k] == st0.live[k]
  }

  /** The archive only grows at its end. */
  predicate ArchiveExtends(st0: Stores, st: Stores) {
    |st0.archive| <= |st.archive| && st.archive[..|st0.archive|] == st0.archive
  }

  /** Each new snapshot is a record that was live and has left the live table. */
  predicate ArchivedLeftLive(st0: Stores, st: Stores) {
    forall j :: |st0.archive| <= j < |st.archive| ==>
      && st.archive[j].id in st0.live && st0.live[st.archive[j].id] == st.archive[j]
      && st.archive[j].id !in st.live
  }

  /** Each record that has left the live table was archived on its way out. */
  predicate LeftLiveArchived(st0: Stores, st: Stores) {
    forall k :: k in st0.live && k !in st.live ==>
      exists j :: |st0.archive| <= j < |st.archive| && st.archive[j].id == k
  }

  /** No record is archived twice. */
  predicate ArchivedOnce(st0: Stores, st: Stores) {
    forall i, j :: |st0.archive| <= i < j < |st.archive| ==> st.archive[i].id != st.archive[j].id
  }

  /** Existing subscriptions are never overwritten, and each new one is a reconciled one. */
  predicate SubsReconciled(st0: Stores, st: Stores) {
    && (forall f :: f in st0.subs ==> f in st.subs && st.subs[f] == st0.subs[f])
    && (forall f :: f in st.subs && f !in st0.subs ==> NewlyReconciled(st0, st.live, st.subs[f]))
  }

  /** What a run may have done to the stores since `st0`, when no delete failed. */
  predicate Evolved(st0: Stores, st: Stores) {
    && LiveShrinks(st0, st) && ArchiveExtends(st0, st) && ArchivedLeftLive(st0, st)
    && LeftLiveArchived(st0, st) && ArchivedOnce(st0, st) && SubsReconciled(st0, st)
  }

  lemma RetireKeepsArchive(st0: Stores, st: Stores, st': Stores)
    requires LiveShrinks(st0, st) && ArchiveExtends(st0, st) && ArchivedLeftLive(st0, st)
    requires RetiredOne(st, st')
    ensures LiveShrinks(st0, st') && ArchiveExtends(st0, st') && ArchivedLeftLive(st0, st')
  {
    var n := |st.archive|;
    assert st'.archive[..|st0.archive|] == st.archive[..|st0.archive|];
    assert forall j :: |st0.archive| <= j < n ==> st'.archive[j] == st.archive[j];
  }

  lemma RetireKeepsArchivedOnce(st0: Stores, st: Stores, st': Stores)
    requires ArchiveExtends(st0, st) && ArchivedLeftLive(st0, st) && ArchivedOnce(st0, st)
    requires RetiredOne(st, st')
    ensures ArchivedOnce(st0, st')
  {
    var n := |st.archive|;
    assert forall j :: |st0.archive| <= j < n ==> st'.archive[j] == st.archive[j];
    assert st'.archive[n].id in st.live;
  }

  lemma RetireKeepsLeftLiveArchived(st0: Stores, st: Stores, st': Stores)
    requires ArchiveExtends(st0, st) && LeftLiveArchived(st0, st)
    requires RetiredOne(st, st')
    ensures LeftLiveArchived(st0, st')
  {
    var n := |st.archive|;
    forall k | k in st0.live && k !in st'.live
      ensures exists j :: |st0.archive| <= j < |st'.archive| && st'.archive[j].id == k
    {
      if k in st.live {
        assert st'.archive[n].id == k;
      } else {
        var j :| |st0.archive| <= j < n && st.archive[j].id == k;
        assert st'.archive[j] == st'.archive[..n][j] == st.archive[j];
      }
    }
  }

  lemma RetireKeepsSubs(st0: Stores, st: Stores, st': Stores)
    requires SubsReconciled(st0, st) && RetiredOne(st, st') && st'.subs == st.subs
    ensures SubsReconciled(st0, st')
  {
    forall f | f in st'.subs && f !in st0.subs
      ensures NewlyReconciled(st0, st'.live, st'.subs[f])
    {
      assert NewlyReconciled(st0, st.live, st.subs[f]);
    }
  }

  /** Retiring one live record keeps `Evolved`. */
  lemma RetireKeepsEvolved(st0: Stores, st: Stores, st': Stores)
    requires Evolved(st0, st) && RetiredOne(st, st') && st'.subs == st.subs
    ensures Evolved(st0, st')
  {
    RetireKeepsArchive(st0, st, st');
    RetireKeepsLeftLiveArchived(st0, st, st');
    RetireKeepsArchivedOnce(st0, st, st');
    RetireKeepsSubs(st0, st, st');
  }

  lemma InsertKeepsSubs(st0: Stores, st: Stores, st': Stores, s: Subscription)
    requires SubsReconciled(st0, st) && InsertedFresh(st.subs, st'.subs, s) && st'.live == st.live
    requires NewlyReconciled(st0, st'.live, s)
    ensures SubsReconciled(st0, st')
  {
    forall f | f in st'.subs && f !in st0.subs
      ensures NewlyReconciled(st0, st'.live, st'.subs[f])
    {
      if f in st.subs {
        assert st'.subs[f] == st.subs[f];
      }
    }
  }

  /** Retiring one live record and inserting the subscription it reconciles
      keeps `Evolved`. */
  lemma ReconcileKeepsEvolved(st0: Stores, st: Stores, st': Stores, s: Subscription)
    requires Evolved(st0, st) && RetiredOne(st, st') && InsertedFresh(st.subs, st'.subs, s)
    requires s.aic_id == Some(LastArchived(st').id) && s.flow_id == LastArchived(st').flow_id
    requires s.cj_event_value == Some(LastArchived(st').cj_event_value)
    requires s.aic_expires == Some(LastArchived(st').expires)
    requires s.status == Some(NotReported) && s.status_history.Some?
    requires |s.status_history.value| == 1 && s.status_history.value[0].status == NotReported
    ensures Evolved(st0, st')
  {
    var mid := st'.(subs := st.subs);
    RetireKeepsEvolved(st0, st, mid);
    var a := LastArchived(st');
    assert mid.archive[|mid.archive| - 1] == a;
    assert a.id in st0.live && st0.live[a.id] == a && a.id !in st'.live;
    assert NewlyReconciled(st0, st'.live, s);
    InsertKeepsSubs(st0, mid, st', s);
  }

  /** A non-fatal row keeps `Evolved`. */
  lemma StepKeepsEvolved(st0: Stores, st: Stores, row: Row, env: RowEnv)
    requires Evolved(st0, st)
    requires !ProcessRow(st, row, env).outcome.DeleteFailed?
    ensures Evolved(st0, ProcessRow(st, row, env).stores)
  {
    ProcessRowContract(st, row, env);
    var r := ProcessRow(st, row, env);
    if r.outcome.Reconciled? {
      ReconcileKeepsEvolved(st0, st, r.stores, r.outcome.sub);
    } else if r.outcome.InsertFailed? {
      RetireKeepsEvolved(st0, st, r.stores);
    }
  }

  /** The fatal row: its snapshot is in the archive while the record is still live. */
  predicate FatalStores(st0: Stores, st: Stores) {
    && |st.archive| > |st0.archive|
    && Evolved(st0, st.(archive := st.archive[..|st.archive| - 1]))
    && LastArchived(st).id in st.live && st.live[LastArchived(st).id] == LastArchived(st)
  }

  lemma {:induction false} RunFromEvolves(st0: Stores, st: Stores, rows: seq<Row>, envs: seq<RowEnv>, i: nat, log: seq<RowOutcome>)
    requires |envs| == |rows| && i <= |rows|
    requires Evolved(st0, st)
    ensures var r := RunFrom(st, rows, envs, i, log);
      && (r.Completed? ==> Evolved(st0, r.stores))
      && (r.Fatal? ==>
            && FatalStores(st0, r.stores) && i <= r.row < |rows| && HasRequiredColumns(rows[r.row])
            && LastArchived(r.stores).flow_id == rows[r.row]["flow_id"].s)
    decreases |rows| - i
  {
    if i < |rows| {
      var step := ProcessRow(st, rows[i], envs[i]);
      if step.outcome.DeleteFailed? {
        ProcessRowContract(st, rows[i], envs[i]);
        var st' := step.stores;
        assert st'.archive[..|st'.archive| - 1] == st.archive;
        assert st'.(archive := st.archive) == st;
      } else {
        StepKeepsEvolved(st0, st, rows[i], envs[i]);
        RunFromEvolves(st0, step.stores, rows, envs, i + 1, log + [step.outcome]);
      }
    }
  }

  /** Over a whole run: the live table only loses records, every one of them
      into the archive, no record is archived twice, subscriptions are only
      added and every one added carries a retired AIC. Of the snapshots this
      run wrote, a fatal run leaves exactly one whose record is still live:
      the AIC matched to the row whose delete failed. */
  lemma RunKeepsStoresConsistent(st: Stores, rows: seq<Row>, envs: seq<RowEnv>)
    requires |envs| == |rows|
    ensures var r := Run(st, rows, envs);
      && (r.Completed? ==> Evolved(st, r.stores))
      && (r.Fatal? ==>
            && FatalStores(st, r.stores) && r.row < |rows| && HasRequiredColumns(rows[r.row])
            && LastArchived(r.stores).flow_id == rows[r.row]["flow_id"].s)
  {
    assert st.archive[..|st.archive|] == st.archive;
    RunFromEvolves(st, st, rows, envs, 0, []);
  }
}
