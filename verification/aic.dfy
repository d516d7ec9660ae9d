/** The attribution identifier ("AIC") record, its live table and its archive
    (src/models/aic.rs). SQL is abstracted away: the live table is a map keyed
    by record id, the archive an append-only sequence of snapshots. The clock,
    UUID generation and store failures are parameters. */
module Aic {
  import opened Wrappers
  import opened Primitives

  /** An AIC is valid for thirty days from its creation or last change. */
  const LifetimeDays: int := 30
  const Lifetime: int := LifetimeDays * SecondsPerDay

  datatype AIC = AIC(
    id: Uuid,
    cj_event_value: string,
    flow_id: string,
    created: Timestamp,
    expires: Timestamp)

  /** The live `aic` table: `id` is the primary key, so each row sits under its own id. */
  type AicTable = m: map<Uuid, AIC> | forall k :: k in m ==> m[k].id == k
    witness map[]

  /** The `aic_archive` table: snapshots in insertion order. */
  type ArchiveTable = seq<AIC>

  /** The thirty-day window that `create` and `update` establish. */
  predicate HasFullWindow(a: AIC) {
    a.expires == a.created + Lifetime
  }

  predicate AllHaveFullWindow(live: AicTable) {
    forall k :: k in live ==> HasFullWindow(live[k])
  }

  /** `fetch_one_by_id`: the row with the given id, or `RowNotFound`. */
  function FetchOneById(live: AicTable, id: Uuid): (r: Result<AIC, DbError>)
    ensures r.Ok? <==> id in live
    ensures r.Ok? ==> r.value.id == id && r.value in live.Values
    ensures r.Err? ==> r.error == RowNotFound
  {
    if id in live then Ok(live[id]) else Err(RowNotFound)
  }

  /** `create`: insert a record under the fresh id `id`, created at `now` and
      expiring thirty days later. Inserting an id already in use violates the
      primary key. */
  function Create(live: AicTable, id: Uuid, now: Timestamp, cj_event_value: string, flow_id: string)
    : (r: Result<(AicTable, AIC), DbError>)
    ensures r.Ok? <==> id !in live
    ensures r.Err? ==> r.error == Database(UniqueViolationCode)
    ensures r.Ok? ==>
      var (live', a) := r.value;
      && a.id == id && a.cj_event_value == cj_event_value && a.flow_id == flow_id
      && a.created == now && HasFullWindow(a)
      && live'.Keys == live.Keys + {id} && live'[id] == a
      && forall k :: k in live ==> live'[k] == live[k]
  {
    if id in live then
      Err(Database(UniqueViolationCode))
    else
      var created := now;
      var expires := created + Lifetime;
      var a := AIC(id, cj_event_value, flow_id, created, expires);
      Ok((live[id := a], a))
  }

  /** `update`: rewrite `cj_event_value` and `flow_id` of an existing record.
      The window is kept when the event value is unchanged and restarted at
      `now` otherwise. A missing id makes the source panic before any write;
      here that is the `RowNotFound` error with the table untouched. */
  function Update(live: AicTable, id: Uuid, now: Timestamp, cj_event_value: string, flow_id: string)
    : (r: Result<(AicTable, AIC), DbError>)
    ensures r.Ok? <==> id in live
    ensures r.Err? ==> r.error == RowNotFound
    ensures r.Ok? ==>
      var (live', a) := r.value;
      && a.id == id && a.cj_event_value == cj_event_value && a.flow_id == flow_id
      && (live[id].cj_event_value == cj_event_value ==>
            a.created == live[id].created && a.expires == live[id].expires)
      && (live[id].cj_event_value != cj_event_value ==>
            a.created == now && HasFullWindow(a))
      && live'.Keys == live.Keys && live'[id] == a
      && forall k :: k in live && k != id ==> live'[k] == live[k]
  {
    var existing :- FetchOneById(live, id);
    var (created, expires) :=
      if existing.cj_event_value != cj_event_value then (now, now + Lifetime)
      else (existing.created, existing.expires);
    var a := AIC(id, cj_event_value, flow_id, created, expires);
    Ok((live[id := a], a))
  }

  /** The ids of the live records carrying `flow_id`. */
  function MatchingIds(live: AicTable, flow_id: string): set<Uuid> {
    set k | k in live && live[k].flow_id == flow_id
  }

  /** Every non-empty set of ids has a least element. */
  lemma {:induction false} LeastOf(s: set<Uuid>) returns (m: Uuid)
    requires s != {}
    ensures m in s && forall j :: j in s ==> m <= j
    decreases |s|
  {
    var x :| x in s;
    var rest := s - {x};
    assert forall j :: j in s ==> j == x || j in rest;
    if rest == {} {
      m := x;
    } else {
      var r := LeastOf(rest);
      m := if x < r then x else r;
    }
  }

  lemma LeastExists(s: set<Uuid>)
    requires s != {}
    ensures exists m :: m in s && forall j :: j in s ==> m <= j
  {
    var m := LeastOf(s);
  }

  /** Some live record carries `flow_id`. */
  predicate HasLiveAic(live: AicTable, flow_id: string) {
    exists k :: k in live && live[k].flow_id == flow_id
  }

  /** `fetch_one_by_flow_id` (body not part of this model): a live record
      carrying `flow_id`, `RowNotFound` when there is none, or the injected
      transport or database `fault`. When several records carry the flow id the
      database picks one; the model picks the least id so the choice is a function. */
  function FetchOneByFlowId(live: AicTable, flow_id: string, fault: Option<DbError>)
    : (r: Result<AIC, DbError>)
    ensures fault.Some? ==> r == Err(fault.value)
    ensures fault.None? ==> (r.Ok? <==> HasLiveAic(live, flow_id))
    ensures fault.None? && r.Err? ==> r.error == RowNotFound
    ensures r.Ok? ==> r.value.flow_id == flow_id && r.value.id in live && live[r.value.id] == r.value
  {
    if fault.Some? then Err(fault.value)
    else
      var ids := MatchingIds(live, flow_id);
      if ids == {} then
        assert forall k :: k in live && live[k].flow_id == flow_id ==> k in ids;
        Err(RowNotFound)
      else
        LeastExists(ids);
        var m :| m in ids && forall j :: j in ids ==> m <= j;
        Ok(live[m])
  }

  /** `delete` (body not part of this model): remove the record with id `id`,
      unless the injected `fault` makes the call fail. */
  function Delete(live: AicTable, id: Uuid, fault: Option<DbError>): (r: Result<AicTable, DbError>)
    ensures fault.Some? <==> r.Err?
    ensures r.Err? ==> r.error == fault.value
    ensures r.Ok? ==> id !in r.value && r.value.Keys == live.Keys - {id}
    ensures r.Ok? ==> forall k :: k in r.value ==> r.value[k] == live[k]
  {
    if fault.Some? then Err(fault.value) else Ok(live - {id})
  }

  /** `AICArchiveModel::create_from_aic` (body not part of this model): append
      a snapshot with identical field values and return it, unless the injected
      `fault` makes the insert fail. */
  function CreateFromAic(archive: ArchiveTable, a: AIC, fault: Option<DbError>)
    : (r: Result<(ArchiveTable, AIC), DbError>)
    ensures fault.Some? <==> r.Err?
    ensures r.Err? ==> r.error == fault.value
    ensures r.Ok? ==> r.value.1 == a && |r.value.0| == |archive| + 1
    ensures r.Ok? ==> r.value.0[..|archive|] == archive && r.value.0[|archive|] == a
  {
    if fault.Some? then Err(fault.value) else Ok((archive + [a], a))
  }

  // ---------------------------------------------------------------------------
  // Lifecycle properties

  /** `create` establishes the thirty-day window on every record of the table. */
  lemma CreatePreservesWindow(live: AicTable, id: Uuid, now: Timestamp, cj: string, flow: string)
    requires AllHaveFullWindow(live)
    ensures Create(live, id, now, cj, flow).Ok? ==> AllHaveFullWindow(Create(live, id, now, cj, flow).value.0)
  {
  }

  /** `update` keeps the thirty-day window in both branches. */
  lemma UpdatePreservesWindow(live: AicTable, id: Uuid, now: Timestamp, cj: string, flow: string)
    requires AllHaveFullWindow(live)
    ensures Update(live, id, now, cj, flow).Ok? ==> AllHaveFullWindow(Update(live, id, now, cj, flow).value.0)
  {
  }

  /** Whatever `create` wrote, `fetch_one_by_id` reads back. */
  lemma CreateThenFetch(live: AicTable, id: Uuid, now: Timestamp, cj: string, flow: string)
    requires id !in live
    ensures var r := Create(live, id, now, cj, flow);
      r.Ok? && FetchOneById(r.value.0, id) == Ok(r.value.1)
  {
  }

  /** Repeating an update changes nothing: the second call sees an unchanged
      event value and so keeps the window the first call set. */
  lemma UpdateIdempotent(live: AicTable, id: Uuid, now: Timestamp, later: Timestamp, cj: string, flow: string)
    requires id in live
    ensures var r1 := Update(live, id, now, cj, flow);
      r1.Ok? && Update(r1.value.0, id, later, cj, flow) == r1
  {
    var (live1, a) := Update(live, id, now, cj, flow).value;
    assert live1[id := a] == live1;
  }
}
