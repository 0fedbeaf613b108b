/** `get_run_token_summary`: tokens per turn, added up by role, by model and by both at once. */
module TokenSummary {
  import opened Collections
  import opened PyText

  datatype EventKind = TurnStart | TurnComplete | OtherEvent

  /**
   A log record, with the candidates for each field in the order the summary tries them; a
   missing text is empty, a missing or unreadable number is 0.
   */
  datatype LogRecord = LogRecord(
    session: string,
    event: EventKind,
    dataIsObject: bool,
    traceIds: seq<string>,
    selectedModels: seq<string>,
    roles: seq<string>,
    turnIndex: int,
    tokenCounts: seq<int>)

  datatype Turn = Turn(traceId: string, turnIndex: int, role: string, model: string, tokens: nat)

  /** `a or b or ... or fallback` */
  function FirstText(candidates: seq<string>, fallback: string): (r: string) {
    if candidates == [] then fallback
    else if candidates[0] != "" then candidates[0]
    else FirstText(candidates[1..], fallback)
  }

  /** The first count that is positive; 0 if none is. */
  function FirstCount(counts: seq<int>): (n: nat) {
    if counts == [] then 0 else if counts[0] > 0 then counts[0] else FirstCount(counts[1..])
  }

  /** The first text that is not empty, or the fallback where all are. */
  lemma {:induction false} FirstTextMeaning(candidates: seq<string>, fallback: string, i: nat)
    requires i <= |candidates| && forall j :: 0 <= j < i ==> candidates[j] == ""
    requires i < |candidates| ==> candidates[i] != ""
    ensures FirstText(candidates, fallback) == if i < |candidates| then candidates[i] else fallback
    decreases i
  {
    if i > 0 { FirstTextMeaning(candidates[1..], fallback, i - 1); }
  }

  lemma {:induction false} FirstCountMeaning(counts: seq<int>, i: nat)
    requires i <= |counts| && forall j :: 0 <= j < i ==> counts[j] <= 0
    requires i < |counts| ==> counts[i] > 0
    ensures FirstCount(counts) == if i < |counts| then counts[i] else 0
    decreases i
  {
    if i > 0 { FirstCountMeaning(counts[1..], i - 1); }
  }

  function TraceOf(r: LogRecord): (t: string) {
    Strip(FirstText(r.traceIds, ""))
  }

  predicate Counts(r: LogRecord, session: string) {
    r.session == session && r.dataIsObject
  }

  /** The record names a model for its trace. */
  predicate Selects(r: LogRecord, session: string, trace: string) {
    && Counts(r, session) && r.event == TurnStart
    && TraceOf(r) == trace && trace != "" && Strip(FirstText(r.selectedModels, "")) != ""
  }

  /** The model most recently selected for a trace among the first `i` records. */
  function SelectedBefore(records: seq<LogRecord>, session: string, i: nat, trace: string): (r: Option<string>)
    requires i <= |records|
  {
    if i == 0 then None
    else if Selects(records[i - 1], session, trace) then Some(Strip(FirstText(records[i - 1].selectedModels, "")))
    else SelectedBefore(records, session, i - 1, trace)
  }

  /** The turn that record `i` completes. */
  function TurnAt(records: seq<LogRecord>, session: string, lower: string -> string, i: nat): (t: Turn)
    requires i < |records|
  {
    var r := records[i];
    var selected := SelectedBefore(records, session, i, TraceOf(r));
    Turn(TraceOf(r), r.turnIndex, lower(Strip(FirstText(r.roles, "unknown"))),
         lower(Strip(if selected.Some? then selected.value else FirstText(r.selectedModels, "unknown"))),
         FirstCount(r.tokenCounts))
  }

  function TurnsOf(records: seq<LogRecord>, session: string, lower: string -> string, i: nat): (ts: seq<Turn>)
    requires i <= |records|
  {
    if i == 0 then []
    else
      var now :=
        if Counts(records[i - 1], session) && records[i - 1].event == TurnComplete
        then [TurnAt(records, session, lower, i - 1)] else [];
      TurnsOf(records, session, lower, i - 1) + now
  }

  /** The latest earlier record of the session that selects a model for the trace decides it. */
  lemma {:induction false} LatestSelectionDecides(records: seq<LogRecord>, session: string, i: nat, trace: string, j: nat)
    requires j < i <= |records| && trace != ""
    requires records[j].session == session && records[j].dataIsObject && records[j].event == TurnStart
    requires Strip(FirstText(records[j].traceIds, "")) == trace && Strip(FirstText(records[j].selectedModels, "")) != ""
    requires forall k :: j < k < i ==>
               || records[k].session != session || !records[k].dataIsObject || records[k].event != TurnStart
               || Strip(FirstText(records[k].traceIds, "")) != trace || Strip(FirstText(records[k].selectedModels, "")) == ""
    ensures SelectedBefore(records, session, i, trace) == Some(Strip(FirstText(records[j].selectedModels, "")))
    decreases i
  {
    if j < i - 1 { LatestSelectionDecides(records, session, i - 1, trace, j); }
  }

  /** Without one nothing is selected. */
  lemma {:induction false} NoSelection(records: seq<LogRecord>, session: string, i: nat, trace: string)
    requires i <= |records|
    requires forall k :: 0 <= k < i ==>
               || records[k].session != session || !records[k].dataIsObject || records[k].event != TurnStart || trace == ""
               || Strip(FirstText(records[k].traceIds, "")) != trace || Strip(FirstText(records[k].selectedModels, "")) == ""
    ensures SelectedBefore(records, session, i, trace) == None
    decreases i
  {
    if i > 0 { NoSelection(records, session, i - 1, trace); }
  }

  /** The record completes a turn of the session. */
  ghost predicate Completes(r: LogRecord, session: string) {
    r.session == session && r.dataIsObject && r.event == TurnComplete
  }

  lemma OneRecordMore(records: seq<LogRecord>, session: string, lower: string -> string, n: nat)
    requires n < |records|
    ensures TurnsOf(records, session, lower, n + 1) == TurnsOf(records, session, lower, n)
         + (if Completes(records[n], session) then [TurnAt(records, session, lower, n)] else [])
  {
  }

  /** The turn of every record, were it to complete one. */
  ghost function AllTurns(records: seq<LogRecord>, session: string, lower: string -> string): (r: seq<Turn>)
    ensures |r| == |records| && forall i :: 0 <= i < |records| ==> r[i] == TurnAt(records, session, lower, i)
  {
    seq(|records|, i requires 0 <= i < |records| => TurnAt(records, session, lower, i))
  }

  ghost function Stages(records: seq<LogRecord>, session: string, lower: string -> string): (r: seq<seq<Turn>>)
    ensures |r| == |records| + 1 && forall i :: 0 <= i <= |records| ==> r[i] == TurnsOf(records, session, lower, i)
  {
    seq(|records| + 1, i requires 0 <= i <= |records| => TurnsOf(records, session, lower, i))
  }

  lemma StagesGrow(records: seq<LogRecord>, session: string, lower: string -> string, keep: seq<bool>)
    requires |keep| == |records| && forall i :: 0 <= i < |records| ==> keep[i] == Completes(records[i], session)
    ensures Grows(Stages(records, session, lower), AllTurns(records, session, lower), keep)
  {
    var stages, all := Stages(records, session, lower), AllTurns(records, session, lower);
    forall i | 0 <= i < |records| ensures stages[i + 1] == stages[i] + (if keep[i] then [all[i]] else []) {
      OneRecordMore(records, session, lower, i);
    }
  }

  /** The turns are those of the session's completing records, one each, in log order. */
  lemma TurnsMeaning(records: seq<LogRecord>, session: string, lower: string -> string) returns (keep: seq<bool>, at: seq<nat>)
    ensures |keep| == |records| && forall i :: 0 <= i < |records| ==> keep[i] == Completes(records[i], session)
    ensures Picks(Stages(records, session, lower)[|records|], AllTurns(records, session, lower), keep, at)
  {
    keep := seq(|records|, i requires 0 <= i < |records| => Completes(records[i], session));
    StagesGrow(records, session, lower, keep);
    at := GrownPicks(Stages(records, session, lower), AllTurns(records, session, lower), keep);
  }

  /** A turn's fields: the record's own, but for a model that was selected for its trace. */
  lemma TurnMeaning(records: seq<LogRecord>, session: string, lower: string -> string, i: nat)
    requires i < |records|
    ensures var r, t := records[i], TurnAt(records, session, lower, i);
            var selected := SelectedBefore(records, session, i, t.traceId);
            && t.traceId == Strip(FirstText(r.traceIds, "")) && t.turnIndex == r.turnIndex
            && t.tokens == FirstCount(r.tokenCounts) && t.role == lower(Strip(FirstText(r.roles, "unknown")))
            && (selected.Some? ==> t.model == lower(Strip(selected.value)))
            && (selected.None? ==> t.model == lower(Strip(FirstText(r.selectedModels, "unknown"))))
  {
  }

  // ----- Sums -----

  function Total(ts: seq<Turn>): (n: nat) {
    if ts == [] then 0 else Total(ts[..|ts| - 1]) + ts[|ts| - 1].tokens
  }

  /** Tokens of the turns whose key is `k`. */
  ghost function TotalWhere<K(!new)>(ts: seq<Turn>, key: Turn -> K, k: K): (n: nat) {
    if ts == [] then 0
    else TotalWhere(ts[..|ts| - 1], key, k) + (if key(ts[|ts| - 1]) == k then ts[|ts| - 1].tokens else 0)
  }

  /** `totals` adds up the turns by key, and has no other keys. */
  ghost predicate AddsUp<K(!new)>(ts: seq<Turn>, key: Turn -> K, totals: map<K, nat>) {
    && totals.Keys == (set t | t in ts :: key(t))
    && (forall k :: k in totals ==> totals[k] == TotalWhere(ts, key, k))
  }

  function AddTo<K(==)>(totals: map<K, nat>, k: K, n: nat): (r: map<K, nat>) {
    totals[k := (if k in totals then totals[k] else 0) + n]
  }

  /** Totals start at nothing and grow by each turn's tokens, under its own key only. */
  lemma TotalsGrow<K(!new)>(ts: seq<Turn>, t: Turn, key: Turn -> K, k: K)
    ensures Total([]) == 0 && Total(ts + [t]) == Total(ts) + t.tokens
    ensures TotalWhere([], key, k) == 0
    ensures TotalWhere(ts + [t], key, k) == TotalWhere(ts, key, k) + (if key(t) == k then t.tokens else 0)
  {
    assert (ts + [t])[..|ts|] == ts;
  }

  lemma {:induction false} TotalWhereAbsent<K(!new)>(ts: seq<Turn>, key: Turn -> K, k: K)
    requires forall t :: t in ts ==> key(t) != k
    ensures TotalWhere(ts, key, k) == 0
    decreases |ts|
  {
    if ts != [] {
      assert ts[|ts| - 1] in ts;
      TotalWhereAbsent(ts[..|ts| - 1], key, k);
    }
  }

  lemma AddTurn<K(!new)>(ts: seq<Turn>, key: Turn -> K, totals: map<K, nat>, t: Turn)
    requires AddsUp(ts, key, totals)
    ensures AddsUp(ts + [t], key, AddTo(totals, key(t), t.tokens))
  {
    var next := ts + [t];
    assert next[..|ts|] == ts;
    if key(t) !in totals {
      TotalWhereAbsent(ts, key, key(t));
    }
  }

  ghost function RowTotal<K(!new)>(totals: map<K, nat>, rows: seq<K>): (n: nat)
    requires forall k :: k in rows ==> k in totals
  {
    if rows == [] then 0 else RowTotal(totals, rows[..|rows| - 1]) + totals[rows[|rows| - 1]]
  }

  ghost function SpreadTotal<K(!new)>(ts: seq<Turn>, key: Turn -> K, rows: seq<K>): (n: nat) {
    if rows == [] then 0 else SpreadTotal(ts, key, rows[..|rows| - 1]) + TotalWhere(ts, key, rows[|rows| - 1])
  }

  lemma {:induction false} SpreadOneMore<K(!new)>(ts: seq<Turn>, key: Turn -> K, rows: seq<K>, t: Turn)
    requires NoRepeats(rows)
    ensures SpreadTotal(ts + [t], key, rows) == SpreadTotal(ts, key, rows) + (if key(t) in rows then t.tokens else 0)
    decreases |rows|
  {
    if rows != [] {
      var front, last := rows[..|rows| - 1], rows[|rows| - 1];
      SpreadOneMore(ts, key, front, t);
      assert (ts + [t])[..|ts|] == ts;
      assert key(t) in rows <==> key(t) in front || key(t) == last;
      assert last !in front;
    }
  }

  lemma {:induction false} EmptySpread<K(!new)>(key: Turn -> K, rows: seq<K>)
    ensures SpreadTotal([], key, rows) == 0
    decreases |rows|
  {
    if rows != [] { EmptySpread(key, rows[..|rows| - 1]); }
  }

  /** Counted by any key, over any listing that has every key once, the tokens are the same tokens. */
  lemma {:induction false} SpreadIsTotal<K(!new)>(ts: seq<Turn>, key: Turn -> K, rows: seq<K>)
    requires NoRepeats(rows) && forall t :: t in ts ==> key(t) in rows
    ensures SpreadTotal(ts, key, rows) == Total(ts)
    decreases |ts|
  {
    if ts == [] {
      EmptySpread(key, rows);
    } else {
      var front, last := ts[..|ts| - 1], ts[|ts| - 1];
      assert ts == front + [last] && last in ts;
      SpreadIsTotal(front, key, rows);
      SpreadOneMore(front, key, rows, last);
    }
  }

  lemma {:induction false} RowsAreSpread<K(!new)>(ts: seq<Turn>, key: Turn -> K, totals: map<K, nat>, rows: seq<K>)
    requires AddsUp(ts, key, totals) && forall k :: k in rows ==> k in totals
    ensures RowTotal(totals, rows) == SpreadTotal(ts, key, rows)
    decreases |rows|
  {
    if rows != [] {
      RowsAreSpread(ts, key, totals, rows[..|rows| - 1]);
      assert rows[|rows| - 1] in rows;
    }
  }

  /** Conservation: the rows of any breakdown add up to the total. */
  lemma RowsConserve<K(!new)>(ts: seq<Turn>, key: Turn -> K, totals: map<K, nat>, rows: seq<K>)
    requires AddsUp(ts, key, totals) && NoRepeats(rows) && Elements(rows) == totals.Keys
    ensures (forall k :: k in rows ==> k in totals) && RowTotal(totals, rows) == Total(ts)
  {
    assert forall k :: k in Elements(rows) <==> k in rows;
    RowsAreSpread(ts, key, totals, rows);
    SpreadIsTotal(ts, key, rows);
  }

  // ----- Role and model in one key -----

  function RoleKey(): (key: Turn -> string) { (t: Turn) => t.role }

  function ModelKey(): (key: Turn -> string) { (t: Turn) => t.model }

  function RoleModelKey(): (key: Turn -> string) { (t: Turn) => t.role + ":" + t.model }

  /** `key.split(":", 1)[0]` */
  function Head(s: string): (r: string)
    ensures r <= s && ':' !in r && (|r| < |s| ==> s[|r|] == ':')
  {
    if s == "" || s[0] == ':' then "" else [s[0]] + Head(s[1..])
  }

  lemma {:induction false} HeadOfKey(role: string, model: string)
    ensures Head(role + ":" + model) == Head(role)
    ensures Head(role) == role <==> ':' !in role
    decreases |role|
  {
    if role == "" {
      assert role + ":" + model == ":" + model;
    } else {
      var s := role + ":" + model;
      assert s[1..] == role[1..] + ":" + model && s[0] == role[0];
      assert role == [role[0]] + role[1..];
      HeadOfKey(role[1..], model);
    }
  }

  /** The rows of the combined breakdown, grouped again by the role in front of the colon. */
  ghost function Regrouped(totals: map<string, nat>, rows: seq<string>, role: string): (n: nat)
    requires forall k :: k in rows ==> k in totals
  {
    if rows == [] then 0
    else
      var last := rows[|rows| - 1];
      Regrouped(totals, rows[..|rows| - 1], role) + (if Head(last) == role then totals[last] else 0)
  }

  ghost function HeadKey(): (key: Turn -> string) { (t: Turn) => Head(t.role) }

  ghost function Matching(rows: seq<string>, role: string): (r: seq<string>) {
    if rows == [] then []
    else Matching(rows[..|rows| - 1], role) + (if Head(rows[|rows| - 1]) == role then [rows[|rows| - 1]] else [])
  }

  lemma {:induction false} MatchingElements(rows: seq<string>, role: string)
    requires NoRepeats(rows)
    ensures NoRepeats(Matching(rows, role))
    ensures forall k :: k in Matching(rows, role) <==> k in rows && Head(k) == role
    decreases |rows|
  {
    if rows != [] {
      var front, last := rows[..|rows| - 1], rows[|rows| - 1];
      MatchingElements(front, role);
      assert last !in front;
      assert forall k :: k in rows <==> k in front || k == last;
    }
  }

  lemma RowTotalAppend<K(!new)>(totals: map<K, nat>, rows: seq<K>, last: K)
    requires last in totals && forall k :: k in rows ==> k in totals
    ensures RowTotal(totals, rows + [last]) == RowTotal(totals, rows) + totals[last]
  {
    assert (rows + [last])[..|rows|] == rows;
  }

  lemma {:induction false} MatchingTotal(totals: map<string, nat>, rows: seq<string>, role: string)
    requires NoRepeats(rows) && forall k :: k in rows ==> k in totals
    ensures forall k :: k in Matching(rows, role) ==> k in totals
    ensures RowTotal(totals, Matching(rows, role)) == Regrouped(totals, rows, role)
    decreases |rows|
  {
    if rows != [] {
      var front, last := rows[..|rows| - 1], rows[|rows| - 1];
      MatchingTotal(totals, front, role);
      var m := Matching(front, role);
      assert last in rows;
      if Head(last) == role {
        RowTotalAppend(totals, m, last);
      } else {
        assert Matching(rows, role) == m;
      }
    }
  }

  /** Restricted to some rows, a breakdown adds up exactly the turns whose key is among them. */
  lemma {:induction false} PartialSpread(ts: seq<Turn>, rows: seq<string>, role: string)
    requires NoRepeats(rows) && forall t :: t in ts ==> (RoleModelKey()(t) in rows <==> Head(t.role) == role)
    ensures SpreadTotal(ts, RoleModelKey(), rows) == TotalWhere(ts, HeadKey(), role)
    decreases |ts|
  {
    if ts == [] {
      EmptySpread(RoleModelKey(), rows);
    } else {
      var front, last := ts[..|ts| - 1], ts[|ts| - 1];
      assert ts == front + [last] && last in ts;
      PartialSpread(front, rows, role);
      SpreadOneMore(front, RoleModelKey(), rows, last);
    }
  }

  lemma RegroupedByHead(ts: seq<Turn>, totals: map<string, nat>, rows: seq<string>, role: string)
    requires AddsUp(ts, RoleModelKey(), totals) && NoRepeats(rows) && Elements(rows) == totals.Keys
    ensures (forall k :: k in rows ==> k in totals) && Regrouped(totals, rows, role) == TotalWhere(ts, HeadKey(), role)
  {
    assert forall k :: k in Elements(rows) <==> k in rows;
    MatchingElements(rows, role);
    MatchingTotal(totals, rows, role);
    var m := Matching(rows, role);
    RowsAreSpread(ts, RoleModelKey(), totals, m);
    forall t | t in ts ensures RoleModelKey()(t) in m <==> Head(t.role) == role {
      HeadOfKey(t.role, t.model);
    }
    PartialSpread(ts, m, role);
  }

  lemma {:induction false} HeadAgrees(ts: seq<Turn>, role: string)
    requires forall t :: t in ts && ':' in t.role ==> t.tokens == 0
    ensures TotalWhere(ts, HeadKey(), role) == TotalWhere(ts, RoleKey(), role)
    decreases |ts|
  {
    if ts != [] {
      var last := ts[|ts| - 1];
      assert last in ts;
      HeadOfKey(last.role, "");
      HeadAgrees(ts[..|ts| - 1], role);
    }
  }

  lemma {:induction false} AtLeastOne(ts: seq<Turn>, t: Turn)
    requires t in ts
    ensures TotalWhere(ts, RoleKey(), t.role) >= t.tokens
    decreases |ts|
  {
    if ts[|ts| - 1] != t {
      assert t in ts[..|ts| - 1];
      AtLeastOne(ts[..|ts| - 1], t);
    }
  }

  /**
   Grouping the combined breakdown by role gives the breakdown by role exactly when no turn
   that carries tokens has a colon in its role.
   */
  lemma RegroupingIsFaithful(ts: seq<Turn>, totals: map<string, nat>, rows: seq<string>)
    requires AddsUp(ts, RoleModelKey(), totals) && NoRepeats(rows) && Elements(rows) == totals.Keys
    requires forall k :: k in rows ==> k in totals
    ensures (forall role :: Regrouped(totals, rows, role) == TotalWhere(ts, RoleKey(), role))
       <==> (forall t :: t in ts && ':' in t.role ==> t.tokens == 0)
  {
    forall role ensures Regrouped(totals, rows, role) == TotalWhere(ts, HeadKey(), role) {
      RegroupedByHead(ts, totals, rows, role);
    }
    if forall t :: t in ts && ':' in t.role ==> t.tokens == 0 {
      forall role ensures TotalWhere(ts, HeadKey(), role) == TotalWhere(ts, RoleKey(), role) {
        HeadAgrees(ts, role);
      }
    } else {
      var t :| t in ts && ':' in t.role && t.tokens > 0;
      AtLeastOne(ts, t);
      TotalWhereAbsent(ts, HeadKey(), t.role);
      assert Regrouped(totals, rows, t.role) != TotalWhere(ts, RoleKey(), t.role);
    }
  }

  // ----- The summary -----

  datatype Summary = Summary(
    totalTokens: nat,
    turns: seq<Turn>,
    byRole: map<string, nat>,
    byModel: map<string, nat>,
    byRoleModel: map<string, nat>)

  /** The running totals after some turns. */
  ghost predicate Accumulated(s: Summary) {
    && s.totalTokens == Total(s.turns)
    && AddsUp(s.turns, RoleKey(), s.byRole)
    && AddsUp(s.turns, ModelKey(), s.byModel)
    && AddsUp(s.turns, RoleModelKey(), s.byRoleModel)
  }

  /** Adding one turn to the total and to all three breakdowns. */
  method Accumulate(s: Summary, t: Turn) returns (r: Summary)
    requires Accumulated(s)
    ensures Accumulated(r) && r.turns == s.turns + [t]
  {
    AddTurn(s.turns, RoleKey(), s.byRole, t);
    AddTurn(s.turns, ModelKey(), s.byModel, t);
    AddTurn(s.turns, RoleModelKey(), s.byRoleModel, t);
    assert (s.turns + [t])[..|s.turns|] == s.turns;
    r := Summary(s.totalTokens + t.tokens, s.turns + [t], AddTo(s.byRole, t.role, t.tokens),
                 AddTo(s.byModel, t.model, t.tokens), AddTo(s.byRoleModel, t.role + ":" + t.model, t.tokens));
  }

  /** The table of selected models holds the latest selection of every trace. */
  ghost predicate Remembers(records: seq<LogRecord>, session: string, i: nat, models: map<string, string>)
    requires i <= |records|
  {
    forall trace :: SelectedBefore(records, session, i, trace) == if trace in models then Some(models[trace]) else None
  }

  /** What one record does to the table of selected models. */
  method Remember(records: seq<LogRecord>, session: string, i: nat, models0: map<string, string>)
    returns (models: map<string, string>)
    requires i < |records| && Remembers(records, session, i, models0)
    ensures Remembers(records, session, i + 1, models)
  {
    models := models0;
    var r := records[i];
    if Counts(r, session) && r.event == TurnStart {
      var trace := TraceOf(r);
      var selected := Strip(FirstText(r.selectedModels, ""));
      if trace != "" && selected != "" {
        models := models[trace := selected];
      }
    }
  }

  /** The turn a completing record stands for, by the table of selected models. */
  method ReadTurn(records: seq<LogRecord>, session: string, lower: string -> string, i: nat, models: map<string, string>)
    returns (turn: Turn)
    requires i < |records| && Remembers(records, session, i, models)
    ensures turn == TurnAt(records, session, lower, i)
  {
    var r := records[i];
    var trace := TraceOf(r);
    assert SelectedBefore(records, session, i, trace) == if trace in models then Some(models[trace]) else None;
    var role := lower(Strip(FirstText(r.roles, "unknown")));
    var model := lower(Strip(if trace in models then models[trace] else FirstText(r.selectedModels, "unknown")));
    turn := Turn(trace, r.turnIndex, role, model, FirstCount(r.tokenCounts));
  }

  /** The one loop: each completed turn is attributed to the model last selected for its trace, and added everywhere. */
  method Summarize(records: seq<LogRecord>, session: string, lower: string -> string) returns (s: Summary)
    ensures s.turns == TurnsOf(records, session, lower, |records|)
    ensures Accumulated(s)
  {
    var models: map<string, string> := map[];
    s := Summary(0, [], map[], map[], map[]);
    for i := 0 to |records|
      invariant Remembers(records, session, i, models)
      invariant s.turns == TurnsOf(records, session, lower, i)
      invariant Accumulated(s)
    {
      if Counts(records[i], session) && records[i].event == TurnComplete {
        var turn := ReadTurn(records, session, lower, i, models);
        s := Accumulate(s, turn);
      }
      models := Remember(records, session, i, models);
    }
  }

  /** For every log: the total, the turns, and the rows of all three breakdowns carry the same tokens. */
  lemma FourWayConservation(s: Summary, roles: seq<string>, models: seq<string>, pairs: seq<string>)
    requires Accumulated(s)
    requires NoRepeats(roles) && Elements(roles) == s.byRole.Keys
    requires NoRepeats(models) && Elements(models) == s.byModel.Keys
    requires NoRepeats(pairs) && Elements(pairs) == s.byRoleModel.Keys
    ensures (forall k :: k in roles ==> k in s.byRole) && RowTotal(s.byRole, roles) == s.totalTokens
    ensures (forall k :: k in models ==> k in s.byModel) && RowTotal(s.byModel, models) == s.totalTokens
    ensures (forall k :: k in pairs ==> k in s.byRoleModel) && RowTotal(s.byRoleModel, pairs) == s.totalTokens
    ensures Total(s.turns) == s.totalTokens
  {
    RowsConserve(s.turns, RoleKey(), s.byRole, roles);
    RowsConserve(s.turns, ModelKey(), s.byModel, models);
    RowsConserve(s.turns, RoleModelKey(), s.byRoleModel, pairs);
  }
}
