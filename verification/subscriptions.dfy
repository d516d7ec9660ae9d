/** The subscription record and its table, as the reconciliation pass builds
    and inserts them (src/lib/check_subscriptions.rs; the `subscriptions`
    model file itself is not part of this model). */
module Subscriptions {
  import opened Wrappers
  import opened Primitives

  /** The status every freshly reconciled subscription starts in. */
  const NotReported: string := "not_reported"

  /** One element of the `status_history` JSON array. */
  datatype StatusEntry = StatusEntry(status: string, t: Timestamp)

  datatype Subscription = Subscription(
    id: Uuid,
    flow_id: string,
    subscription_id: string,
    report_timestamp: Timestamp,
    subscription_created: Timestamp,
    fxa_uid: string,
    quantity: Int32,
    plan_id: string,
    plan_currency: string,
    plan_amount: Int32,
    country: Option<string>,
    aic_id: Option<Uuid>,
    aic_expires: Option<Timestamp>,
    cj_event_value: Option<string>,
    status: Option<string>,
    status_history: Option<seq<StatusEntry>>)

  /** The `subscriptions` table. `flow_id` carries a unique constraint, so the
      table is a map keyed by it, each row under its own flow id. */
  type SubscriptionTable = m: map<string, Subscription> | forall f :: f in m ==> m[f].flow_id == f
    witness map[]

  /** The status column agrees with the last entry of the history. */
  predicate StatusMatchesHistory(s: Subscription) {
    s.status.Some? && s.status_history.Some? && |s.status_history.value| > 0
    && s.status_history.value[|s.status_history.value| - 1].status == s.status.value
  }

  /** `create_from_sub` (body not part of this model): insert `s`. An injected
      `fault` (a connection failure, a database error) makes the call fail
      first; otherwise a second row with the same flow id violates the unique
      constraint and the database answers with SQLSTATE 23505. */
  function CreateFromSub(subs: SubscriptionTable, s: Subscription, fault: Option<DbError>)
    : (r: Result<SubscriptionTable, DbError>)
    ensures fault.Some? ==> r == Err(fault.value)
    ensures fault.None? ==> (r.Err? <==> s.flow_id in subs)
    ensures fault.None? && r.Err? ==> r.error == Database(UniqueViolationCode)
    ensures r.Ok? ==> r.value.Keys == subs.Keys + {s.flow_id} && r.value[s.flow_id] == s
    ensures r.Ok? ==> forall f :: f in subs ==> r.value[f] == subs[f]
  {
    if fault.Some? then Err(fault.value)
    else if s.flow_id in subs then Err(Database(UniqueViolationCode))
    else Ok(subs[s.flow_id := s])
  }
}
