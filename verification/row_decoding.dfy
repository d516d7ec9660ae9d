/** Decoding one warehouse result row into a subscription draft
    (`make_subscription_from_bq_row` in src/lib/check_subscriptions.rs). */
module RowDecoding {
  import opened Wrappers
  import opened Primitives
  import opened Subscriptions

  /** A cell of a warehouse result row, as the typed accessors see it. */
  datatype Cell = Text(s: string) | Time(t: Timestamp) | Integer(i: int) | Null

  /** A result row: cells by column name. A column the row lacks is absent. */
  type Row = map<string, Cell>

  /** What a strict accessor demands of a cell. */
  datatype Kind = TextKind | TimeKind | Int32Kind

  predicate Fits(c: Cell, k: Kind) {
    match k
    case TextKind => c.Text?
    case TimeKind => c.Time?
    case Int32Kind => c.Integer? && -0x8000_0000 <= c.i <= 0x7FFF_FFFF
  }

  /** The row has column `name`, non-null and of kind `k`. */
  predicate HasColumn(row: Row, name: string, k: Kind) {
    name in row && Fits(row[name], k)
  }

  /** A strict accessor failed on the named column. */
  datatype DecodeError = MissingField(name: string)

  /** `require_string_by_name` */
  function RequireString(row: Row, name: string): (r: Result<string, DecodeError>)
    ensures r.Ok? <==> HasColumn(row, name, TextKind)
    ensures r.Ok? ==> row[name] == Text(r.value)
    ensures r.Err? ==> r.error == MissingField(name)
  {
    if name in row && row[name].Text? then Ok(row[name].s) else Err(MissingField(name))
  }

  /** `require_offsetdatetime_by_name` */
  function RequireTimestamp(row: Row, name: string): (r: Result<Timestamp, DecodeError>)
    ensures r.Ok? <==> HasColumn(row, name, TimeKind)
    ensures r.Ok? ==> row[name] == Time(r.value)
    ensures r.Err? ==> r.error == MissingField(name)
  {
    if name in row && row[name].Time? then Ok(row[name].t) else Err(MissingField(name))
  }

  /** `require_i32_by_name`: a value outside the 32-bit range does not decode. */
  function RequireInt32(row: Row, name: string): (r: Result<Int32, DecodeError>)
    ensures r.Ok? <==> HasColumn(row, name, Int32Kind)
    ensures r.Ok? ==> row[name] == Integer(r.value)
    ensures r.Err? ==> r.error == MissingField(name)
  {
    if name in row && row[name].Integer? && -0x8000_0000 <= row[name].i <= 0x7FFF_FFFF then
      Ok(row[name].i)
    else
      Err(MissingField(name))
  }

  /** `get_string_by_name`: the lenient accessor, absent instead of failing. */
  function GetString(row: Row, name: string): (r: Option<string>)
    ensures r.Some? <==> HasColumn(row, name, TextKind)
    ensures r.Some? ==> row[name] == Text(r.value)
  {
    if name in row && row[name].Text? then Some(row[name].s) else None
  }

  /** The nine columns a row must carry, in the order the decoder reads them. */
  const RequiredColumns: seq<(string, Kind)> := [
    ("flow_id", TextKind),
    ("subscription_id", TextKind),
    ("report_timestamp", TimeKind),
    ("subscription_created", TimeKind),
    ("fxa_uid", TextKind),
    ("quantity", Int32Kind),
    ("plan_id", TextKind),
    ("plan_currency", TextKind),
    ("plan_amount", Int32Kind)
  ]

  /** The row carries every column of `cols`, each with its kind. */
  predicate HasColumns(row: Row, cols: seq<(string, Kind)>) {
    forall c :: c in cols ==> HasColumn(row, c.0, c.1)
  }

  predicate HasRequiredColumns(row: Row) {
    HasColumns(row, RequiredColumns)
  }

  /** The first of `cols` the row does not carry, if any. */
  function FirstMissing(row: Row, cols: seq<(string, Kind)>): Option<string> {
    if cols == [] then None
    else if !HasColumn(row, cols[0].0, cols[0].1) then Some(cols[0].0)
    else FirstMissing(row, cols[1..])
  }

  /** A draft: nothing from the attribution side is filled in yet. */
  predicate IsDraft(s: Subscription) {
    s.aic_id.None? && s.aic_expires.None? && s.cj_event_value.None?
    && s.status.None? && s.status_history.None?
  }

  /** The warehouse row a draft describes: the nine required columns, and
      `country` when the draft has one. */
  function RowOf(s: Subscription): Row {
    var required := map[
      "flow_id" := Text(s.flow_id),
      "subscription_id" := Text(s.subscription_id),
      "report_timestamp" := Time(s.report_timestamp),
      "subscription_created" := Time(s.subscription_created),
      "fxa_uid" := Text(s.fxa_uid),
      "quantity" := Integer(s.quantity),
      "plan_id" := Text(s.plan_id),
      "plan_currency" := Text(s.plan_currency),
      "plan_amount" := Integer(s.plan_amount)
    ];
    if s.country.Some? then required["country" := Text(s.country.value)] else required
  }

  /** `make_subscription_from_bq_row`, with the fresh UUID passed in as `id`.
      The strict accessors run in column order and the first failure is the
      result; `country` never fails. */
  function MakeSubscriptionFromRow(row: Row, id: Uuid): (r: Result<Subscription, DecodeError>)
    ensures r.Ok? ==> r.value.id == id && IsDraft(r.value)
    ensures r.Ok? ==> r.value.country == GetString(row, "country")
  {
    var flow_id :- RequireString(row, "flow_id");
    var subscription_id :- RequireString(row, "subscription_id");
    var report_timestamp :- RequireTimestamp(row, "report_timestamp");
    var subscription_created :- RequireTimestamp(row, "subscription_created");
    var fxa_uid :- RequireString(row, "fxa_uid");
    var quantity :- RequireInt32(row, "quantity");
    var plan_id :- RequireString(row, "plan_id");
    var plan_currency :- RequireString(row, "plan_currency");
    var plan_amount :- RequireInt32(row, "plan_amount");
    var country := GetString(row, "country");
    Ok(Subscription(
      id, flow_id, subscription_id, report_timestamp, subscription_created, fxa_uid,
      quantity, plan_id, plan_currency, plan_amount, country,
      None, None, None, None, None))
  }

  /** A row that carries the first `k` columns of `cols` but not column `k`
      is missing column `k` first. */
  lemma {:induction false} FirstMissingAfterPrefix(row: Row, cols: seq<(string, Kind)>, k: nat)
    requires k < |cols| && HasColumns(row, cols[..k]) && !HasColumn(row, cols[k].0, cols[k].1)
    ensures FirstMissing(row, cols) == Some(cols[k].0)
    decreases k
  {
    if k > 0 {
      assert cols[0] in cols[..k];
      forall c | c in cols[1..][..k - 1] ensures HasColumn(row, c.0, c.1) {
        var j :| 0 <= j < k - 1 && cols[1..][..k - 1][j] == c;
        assert c == cols[..k][j + 1];
      }
      FirstMissingAfterPrefix(row, cols[1..], k - 1);
    }
  }

  /** The first missing column, spelled out column by column. */
  function FirstMissingRequired(row: Row): (r: Option<string>)
  {
    if !HasColumn(row, "flow_id", TextKind) then Some("flow_id")
    else if !HasColumn(row, "subscription_id", TextKind) then Some("subscription_id")
    else if !HasColumn(row, "report_timestamp", TimeKind) then Some("report_timestamp")
    else if !HasColumn(row, "subscription_created", TimeKind) then Some("subscription_created")
    else if !HasColumn(row, "fxa_uid", TextKind) then Some("fxa_uid")
    else if !HasColumn(row, "quantity", Int32Kind) then Some("quantity")
    else if !HasColumn(row, "plan_id", TextKind) then Some("plan_id")
    else if !HasColumn(row, "plan_currency", TextKind) then Some("plan_currency")
    else if !HasColumn(row, "plan_amount", Int32Kind) then Some("plan_amount")
    else None
  }

  lemma FirstMissingStep(row: Row, cols: seq<(string, Kind)>, k: nat)
    requires k < |cols|
    ensures FirstMissing(row, cols[k..]) ==
      if !HasColumn(row, cols[k].0, cols[k].1) then Some(cols[k].0) else FirstMissing(row, cols[k + 1..])
  {
    assert cols[k..][1..] == cols[k + 1..];
  }

  lemma FirstMissingUnrolled(row: Row)
    ensures FirstMissing(row, RequiredColumns) == FirstMissingRequired(row)
  {
    var c := RequiredColumns;
    assert c[0..] == c;
    FirstMissingStep(row, c, 0);
    FirstMissingStep(row, c, 1);
    FirstMissingStep(row, c, 2);
    FirstMissingStep(row, c, 3);
    FirstMissingStep(row, c, 4);
    FirstMissingStep(row, c, 5);
    FirstMissingStep(row, c, 6);
    FirstMissingStep(row, c, 7);
    FirstMissingStep(row, c, 8);
    assert c[9..] == [];
  }

  /** The decoder fails exactly where the column-by-column check finds a gap. */
  lemma DecodeFailsAtFirstMissing(row: Row, id: Uuid)
    ensures MakeSubscriptionFromRow(row, id).Err? <==> FirstMissingRequired(row).Some?
    ensures MakeSubscriptionFromRow(row, id).Err? ==>
      FirstMissingRequired(row) == Some(MakeSubscriptionFromRow(row, id).error.name)
  {
  }

  lemma RequiredPresentIffNoGap(row: Row)
    ensures HasRequiredColumns(row) <==> FirstMissingRequired(row).None?
  {
  }

  /** Decoding succeeds exactly when all nine required columns are present
      with the right kind; otherwise it names the first one missing. */
  lemma DecodeSucceedsIffRequiredPresent(row: Row, id: Uuid)
    ensures MakeSubscriptionFromRow(row, id).Ok? <==> HasRequiredColumns(row)
    ensures MakeSubscriptionFromRow(row, id).Err? ==>
      FirstMissing(row, RequiredColumns) == Some(MakeSubscriptionFromRow(row, id).error.name)
  {
    DecodeFailsAtFirstMissing(row, id);
    RequiredPresentIffNoGap(row);
    FirstMissingUnrolled(row);
  }

  /** A decoded draft carries exactly the values of the row's required columns. */
  lemma DecodeKeepsColumns(row: Row, id: Uuid)
    requires MakeSubscriptionFromRow(row, id).Ok?
    ensures var s := MakeSubscriptionFromRow(row, id).value;
      && row["flow_id"] == Text(s.flow_id)
      && row["subscription_id"] == Text(s.subscription_id)
      && row["report_timestamp"] == Time(s.report_timestamp)
      && row["subscription_created"] == Time(s.subscription_created)
      && row["fxa_uid"] == Text(s.fxa_uid)
      && row["quantity"] == Integer(s.quantity)
      && row["plan_id"] == Text(s.plan_id)
      && row["plan_currency"] == Text(s.plan_currency)
      && row["plan_amount"] == Integer(s.plan_amount)
  {
    DecodeSucceedsIffRequiredPresent(row, id);
  }

  /** The row a draft describes carries all nine required columns. */
  lemma RowOfHasRequiredColumns(s: Subscription)
    ensures FirstMissingRequired(RowOf(s)) == None
  {
  }

  /** Decoding the row a draft describes gives back that draft. */
  lemma DecodeRowOf(s: Subscription)
    requires IsDraft(s)
    ensures MakeSubscriptionFromRow(RowOf(s), s.id) == Ok(s)
  {
    var row := RowOf(s);
    RowOfHasRequiredColumns(s);
    DecodeFailsAtFirstMissing(row, s.id);
    assert GetString(row, "country") == s.country;
  }
}
