/**
 The daily budget ledger and the protocol of a billed provider call.

 The reservation table is a sequence of rows in id order: inserting appends, an update by id
 rewrites in place, a delete by date keeps the remaining order. Amounts are exact and
 non-negative. `System` interleaves any number of billed calls with prunes; a call that is
 cancelled never settles its row.
 */
module Budget {
  import opened Prelude

  /** Dollars, exactly. */
  type Amount = x: real | x >= 0.0

  datatype Status = Reserved | Committed | Released

  datatype Row = Row(id: nat, day: int, owner: (string, string), product: string, amount: Amount, status: Status)

  /** Whose money, on which UTC day: the scope of one limit. */
  datatype Scope = Scope(day: int, owner: (string, string))

  predicate InScope(row: Row, scope: Scope) {
    row.day == scope.day && row.owner == scope.owner
  }

  /** SUM(amount_usd) over the rows of a scope that carry `status`. */
  function Total(rows: seq<Row>, scope: Scope, status: Status): Amount {
    if rows == [] then 0.0
    else Total(rows[..|rows| - 1], scope, status)
         + (var last := rows[|rows| - 1]; if InScope(last, scope) && last.status == status then last.amount else 0.0)
  }

  /** What counts against the limit. */
  function Usage(rows: seq<Row>, scope: Scope): Amount {
    Total(rows, scope, Reserved) + Total(rows, scope, Committed)
  }

  /** UPDATE ... SET status WHERE id */
  function WithStatus(rows: seq<Row>, id: nat, status: Status): seq<Row> {
    if rows == [] then []
    else
      var last := rows[|rows| - 1];
      WithStatus(rows[..|rows| - 1], id, status) + [if last.id == id then last.(status := status) else last]
  }

  /** The rows that DELETE ... WHERE usage_date < cutoff leaves. */
  function Since(rows: seq<Row>, cutoff: int): seq<Row> {
    if rows == [] then []
    else
      var last := rows[|rows| - 1];
      Since(rows[..|rows| - 1], cutoff) + if last.day >= cutoff then [last] else []
  }

  lemma {:induction false} WithStatusPointwise(rows: seq<Row>, id: nat, status: Status)
    ensures |WithStatus(rows, id, status)| == |rows|
    ensures forall i | 0 <= i < |rows| ::
              WithStatus(rows, id, status)[i] == if rows[i].id == id then rows[i].(status := status) else rows[i]
  {
    if rows == [] {
    } else {
      WithStatusPointwise(rows[..|rows| - 1], id, status);
    }
  }

  lemma {:induction false} SinceExactly(rows: seq<Row>, cutoff: int)
    ensures |Since(rows, cutoff)| <= |rows|
    ensures forall row :: row in Since(rows, cutoff) <==> row in rows && row.day >= cutoff
  {
    if rows == [] {
    } else {
      SinceExactly(rows[..|rows| - 1], cutoff);
      assert rows == rows[..|rows| - 1] + [rows[|rows| - 1]];
    }
  }

  ghost predicate WithinLimit(rows: seq<Row>, limit: Option<Amount>) {
    limit.Some? ==> forall scope :: Usage(rows, scope) <= limit.value
  }

  // ---------------------------------------------------------------------
  // The ledger
  // ---------------------------------------------------------------------

  lemma UsageAfterInsert(rows: seq<Row>, row: Row)
    ensures forall scope :: Usage(rows + [row], scope) ==
              Usage(rows, scope) + if InScope(row, scope) && row.status != Released then row.amount else 0.0
  {
    assert (rows + [row])[..|rows|] == rows;
  }

  lemma TotalOneMore(rows: seq<Row>, last: Row, scope: Scope, status: Status)
    ensures Total(rows + [last], scope, status) ==
            Total(rows, scope, status) + if InScope(last, scope) && last.status == status then last.amount else 0.0
  {
    assert (rows + [last])[..|rows|] == rows;
  }

  lemma SinceOneMore(rows: seq<Row>, last: Row, cutoff: int)
    ensures Since(rows + [last], cutoff) == if last.day >= cutoff then Since(rows, cutoff) + [last] else Since(rows, cutoff)
  {
    assert (rows + [last])[..|rows|] == rows;
  }

  lemma {:induction false} UsageAfterDelete(rows: seq<Row>, cutoff: int, scope: Scope)
    ensures forall status :: Total(Since(rows, cutoff), scope, status) ==
              if scope.day >= cutoff then Total(rows, scope, status) else 0.0
  {
    if rows == [] {
    } else {
      var front, last := rows[..|rows| - 1], rows[|rows| - 1];
      UsageAfterDelete(front, cutoff, scope);
      assert rows == front + [last];
      hide Total, Since;
      SinceOneMore(front, last, cutoff);
      forall status ensures Total(Since(rows, cutoff), scope, status) ==
        if scope.day >= cutoff then Total(rows, scope, status) else 0.0
      {
        TotalOneMore(front, last, scope, status);
        TotalOneMore(Since(front, cutoff), last, scope, status);
      }
    }
  }

  ghost predicate Ascending(rows: seq<Row>) {
    forall i, j | 0 <= i < j < |rows| :: rows[i].id < rows[j].id
  }

  lemma {:induction false} SinceKeepsOrder(rows: seq<Row>, cutoff: int)
    requires Ascending(rows)
    ensures Ascending(Since(rows, cutoff))
  {
    if rows == [] {
    } else {
      var front, last := rows[..|rows| - 1], rows[|rows| - 1];
      SinceKeepsOrder(front, cutoff);
      SinceExactly(front, cutoff);
      var kept := Since(front, cutoff);
      forall i | 0 <= i < |kept| ensures kept[i].id < last.id {
        assert kept[i] in kept;
      }
    }
  }

  /** Settling never raises what counts against the limit, unless it revives a released row. */
  lemma {:induction false} UsageAfterSettle(rows: seq<Row>, id: nat, status: Status, scope: Scope)
    requires status == Released || forall row <- rows :: row.id == id ==> row.status != Released
    ensures Usage(WithStatus(rows, id, status), scope) <= Usage(rows, scope)
  {
    if rows == [] {
    } else {
      UsageAfterSettle(rows[..|rows| - 1], id, status, scope);
      WithStatusPointwise(rows, id, status);
      var updated := WithStatus(rows, id, status);
      WithStatusPointwise(rows[..|rows| - 1], id, status);
      assert updated[..|rows| - 1] == WithStatus(rows[..|rows| - 1], id, status);
    }
  }

  lemma UsageAfterStatus(rows: seq<Row>, id: nat, status: Status)
    ensures (status == Released || forall row <- rows :: row.id == id ==> row.status != Released) ==>
              forall scope :: Usage(WithStatus(rows, id, status), scope) <= Usage(rows, scope)
  {
    if status == Released || forall row <- rows :: row.id == id ==> row.status != Released {
      forall scope ensures Usage(WithStatus(rows, id, status), scope) <= Usage(rows, scope) {
        UsageAfterSettle(rows, id, status, scope);
      }
    }
  }

  class BudgetLedger {
    const limit: Option<Amount>
    var rows: seq<Row>
    var nextId: nat   // AUTOINCREMENT: larger than every id ever handed out

    /** Ids are distinct and below the next one. */
    ghost predicate Valid()
      reads this
    {
      && (forall i | 0 <= i < |rows| :: rows[i].id < nextId)
      && Ascending(rows)
    }

    constructor (limit: Option<Amount>)
      ensures Valid() && this.limit == limit && rows == [] && nextId == 1
    {
      this.limit, rows, nextId := limit, [], 1;
    }

    /** Refuses exactly when the limit would be exceeded, and then changes nothing. */
    method Reserve(owner: Principal, product: string, amount: Amount, day: int) returns (id: Option<nat>)
      requires Valid()
      modifies this
      ensures Valid()
      ensures id.None? <==>
        limit.Some? && var scope := Scope(day, owner.Identity());
                       old(Total(rows, scope, Reserved) + Total(rows, scope, Committed)) + amount > limit.value
      ensures id.None? ==> rows == old(rows) && nextId == old(nextId)
      ensures id.Some? ==>
        && id.value == old(nextId) && nextId == old(nextId) + 1
        && rows == old(rows) + [Row(id.value, day, owner.Identity(), product, amount, Reserved)]
      ensures old(WithinLimit(rows, limit)) ==> WithinLimit(rows, limit)
    {
      var scope := Scope(day, owner.Identity());
      var current := Usage(rows, scope);
      if limit.Some? && current + amount > limit.value {
        return None;
      }
      var row := Row(nextId, day, owner.Identity(), product, amount, Reserved);
      UsageAfterInsert(rows, row);
      rows := rows + [row];
      id := Some(nextId);
      nextId := nextId + 1;
    }

    method Commit(id: nat)
      requires Valid()
      modifies `rows
      ensures Valid() && rows == WithStatus(old(rows), id, Committed)
      ensures old(WithinLimit(rows, limit)) && (forall row <- old(rows) :: row.id == id ==> row.status != Released) ==>
                WithinLimit(rows, limit)
    {
      UsageAfterStatus(rows, id, Committed);
      WithStatusPointwise(rows, id, Committed);
      rows := WithStatus(rows, id, Committed);
    }

    method Release(id: nat)
      requires Valid()
      modifies `rows
      ensures Valid() && rows == WithStatus(old(rows), id, Released)
      ensures old(WithinLimit(rows, limit)) ==> WithinLimit(rows, limit)
    {
      UsageAfterStatus(rows, id, Released);
      WithStatusPointwise(rows, id, Released);
      rows := WithStatus(rows, id, Released);
    }

    /** Deletes the rows of days before the cutoff and returns how many there were. */
    method Prune(cutoff: int) returns (deleted: nat)
      requires Valid()
      modifies `rows
      ensures Valid() && rows == Since(old(rows), cutoff)
      ensures deleted == |old(rows)| - |rows|
      ensures old(WithinLimit(rows, limit)) ==> WithinLimit(rows, limit)
    {
      var kept := Since(rows, cutoff);
      SinceExactly(rows, cutoff);
      SinceKeepsOrder(rows, cutoff);
      forall scope ensures Usage(kept, scope) <= Usage(rows, scope) {
        UsageAfterDelete(rows, cutoff, scope);
      }
      deleted := |rows| - |kept|;
      rows := kept;
    }
  }

  /** What one row counts against the limit of a scope. */
  function Counts(row: Row, scope: Scope): Amount {
    if InScope(row, scope) && row.status != Released then row.amount else 0.0
  }

  lemma UpdateOneMore(rows: seq<Row>, last: Row, id: nat, status: Status)
    ensures WithStatus(rows + [last], id, status) ==
            WithStatus(rows, id, status) + [if last.id == id then last.(status := status) else last]
  {
    assert (rows + [last])[..|rows|] == rows;
  }

  lemma UsageOneMore(rows: seq<Row>, last: Row, scope: Scope)
    ensures Usage(rows + [last], scope) == Usage(rows, scope) + Counts(last, scope)
  {
    TotalOneMore(rows, last, scope, Reserved);
    TotalOneMore(rows, last, scope, Committed);
  }

  lemma WithStatusElsewhere(rows: seq<Row>, id: nat, status: Status)
    requires forall row <- rows :: row.id != id
    ensures WithStatus(rows, id, status) == rows
  {
    WithStatusPointwise(rows, id, status);
  }

  lemma {:induction false} UsageAfterUpdate(rows: seq<Row>, k: nat, status: Status, scope: Scope)
    requires k < |rows| && Ascending(rows)
    ensures Usage(WithStatus(rows, rows[k].id, status), scope) ==
            Usage(rows, scope) - Counts(rows[k], scope) + Counts(rows[k].(status := status), scope)
  {
    hide Total, WithStatus;
    var n, id := |rows| - 1, rows[k].id;
    var front, last := rows[..n], rows[n];
    var last' := if last.id == id then last.(status := status) else last;
    assert rows == front + [last];
    UpdateOneMore(front, last, id, status);
    UsageOneMore(front, last, scope);
    UsageOneMore(WithStatus(front, id, status), last', scope);
    if k < n {
      UsageAfterUpdate(front, k, status, scope);
    } else {
      WithStatusElsewhere(front, id, status);
    }
  }

  /**
   Why a reservation must not be settled twice: committing row k keeps a limit that held exactly when
   the row was not released before, or its amount still fits beside everything that counts by then.
   */
  lemma CommitKeepsLimit(rows: seq<Row>, k: nat, limit: Amount)
    requires k < |rows| && Ascending(rows) && WithinLimit(rows, Some(limit))
    ensures WithinLimit(WithStatus(rows, rows[k].id, Committed), Some(limit)) <==>
            rows[k].status != Released || Usage(rows, Scope(rows[k].day, rows[k].owner)) + rows[k].amount <= limit
  {
    hide Usage, WithStatus;
    forall scope
      ensures Usage(WithStatus(rows, rows[k].id, Committed), scope) ==
              Usage(rows, scope) + if rows[k].status == Released && InScope(rows[k], scope) then rows[k].amount else 0.0
    {
      UsageAfterUpdate(rows, k, Committed, scope);
    }
    var updated, own := WithStatus(rows, rows[k].id, Committed), Scope(rows[k].day, rows[k].owner);
    assert WithinLimit(updated, Some(limit)) ==> Usage(updated, own) <= limit;
    if rows[k].status != Released || Usage(rows, own) + rows[k].amount <= limit {
      forall scope ensures Usage(updated, scope) <= limit {
        assert InScope(rows[k], scope) ==> scope == own;
        assert Usage(rows, scope) <= limit;
      }
    }
  }

  lemma WithStatusSnoc(rows: seq<Row>, more: seq<Row>, id: nat, status: Status)
    requires |more| <= 1
    ensures WithStatus(rows + more, id, status) == WithStatus(rows, id, status) + WithStatus(more, id, status)
  {
    if |more| == 1 {
      assert (rows + more)[..|rows|] == rows;
    } else {
      assert rows + more == rows;
    }
  }

  lemma SettleLast(rows: seq<Row>, last: Row, status: Status)
    requires forall row <- rows :: row.id != last.id
    ensures WithStatus(rows + [last], last.id, status) == rows + [last.(status := status)]
  {
    WithStatusSnoc(rows, [last], last.id, status);
    WithStatusElsewhere(rows, last.id, status);
  }

  // ---------------------------------------------------------------------
  // Billed calls
  // ---------------------------------------------------------------------

  /** How the body of a billed call ended. `Cancelled` is not an `Exception`, so nothing settles it. */
  datatype Ending = Succeeded | AmbiguousError | OtherProviderError | OtherException | Cancelled

  /** The status a call's row ends up with; `None` leaves it reserved. */
  function Settlement(ending: Ending): Option<Status> {
    match ending {
      case Succeeded => Some(Committed)
      case AmbiguousError => Some(Committed)
      case OtherProviderError => Some(Released)
      case OtherException => Some(Released)
      case Cancelled => None
    }
  }

  datatype CallResult = BudgetExceeded | Ended(ending: Ending)

  /** The status of a call's row in the end; a call that is cancelled while it waits for the ledger does not settle. */
  function FinalStatus(body: Ending, settles: bool): Status {
    if settles && Settlement(body).Some? then Settlement(body).value else Reserved
  }

  /** After the body of a billed call: settle, unless the call is cancelled. */
  method SettleCall(ledger: BudgetLedger, id: nat, body: Ending, settles: bool)
    requires ledger.Valid()
    modifies ledger`rows
    ensures ledger.Valid()
    ensures ledger.rows == if settles && Settlement(body).Some? then WithStatus(old(ledger.rows), id, Settlement(body).value)
                           else old(ledger.rows)
    ensures old(WithinLimit(ledger.rows, ledger.limit)) && (forall row <- old(ledger.rows) :: row.id == id ==> row.status != Released) ==>
              WithinLimit(ledger.rows, ledger.limit)
  {
    hide Usage, WithStatus;
    if !settles {
      return;
    }
    match body {
      case AmbiguousError => ledger.Commit(id);
      case OtherProviderError => ledger.Release(id);
      case OtherException => ledger.Release(id);
      case Cancelled =>
      case Succeeded => ledger.Commit(id);
    }
  }

  /** Settling the row that was inserted last. */
  lemma SettleReserved(rows: seq<Row>, row: Row, body: Ending, settles: bool)
    requires row.status == Reserved && forall r <- rows :: r.id < row.id
    ensures (if settles && Settlement(body).Some? then WithStatus(rows + [row], row.id, Settlement(body).value) else rows + [row])
            == rows + [row.(status := FinalStatus(body, settles))]
    ensures forall r <- rows + [row] :: r.id == row.id ==> r.status != Released
  {
    if Settlement(body).Some? {
      SettleLast(rows, row, Settlement(body).value);
    }
  }

  /** One billed call from reservation to settlement, with the ending of its body as argument. */
  method BilledProviderSlot(ledger: BudgetLedger, owner: Principal, product: string, amount: Amount, day: int,
                            body: Ending, settles: bool)
    returns (result: CallResult)
    requires ledger.Valid()
    modifies ledger
    ensures ledger.Valid() && (old(WithinLimit(ledger.rows, ledger.limit)) ==> WithinLimit(ledger.rows, ledger.limit))
    ensures result == BudgetExceeded <==>
      ledger.limit.Some? && var scope := Scope(day, owner.Identity());
                            old(Total(ledger.rows, scope, Reserved) + Total(ledger.rows, scope, Committed)) + amount > ledger.limit.value
    ensures result == BudgetExceeded ==> ledger.rows == old(ledger.rows)
    ensures result.Ended? ==> result.ending == body
    ensures result.Ended? ==>
      ledger.rows == old(ledger.rows)
                     + [Row(old(ledger.nextId), day, owner.Identity(), product, amount, FinalStatus(body, settles))]
    ensures result.Ended? ==>
      var status := ledger.rows[|old(ledger.rows)|].status;
      && (status == Committed <==> settles && body in {Succeeded, AmbiguousError})
      && (status == Released <==> settles && body in {OtherProviderError, OtherException})
  {
    hide Usage, WithStatus;
    var id := ledger.Reserve(owner, product, amount, day);
    if id.None? {
      return BudgetExceeded;
    }
    SettleReserved(old(ledger.rows), ledger.rows[|old(ledger.rows)|], body, settles);
    SettleCall(ledger, id.value, body, settles);
    result := Ended(body);
  }

  // ---------------------------------------------------------------------
  // Many calls at once
  // ---------------------------------------------------------------------

  /**
   What became of a call: its body runs; its body ended and the settlement is still to come; it was
   cancelled before it settled; or it is settled.
   */
  datatype Fate = InFlight | Unsettled(ending: Ending) | Abandoned | Settled(ending: Ending)

  /** History of one accepted call. Call number i holds reservation i + 1. */
  datatype Call = Call(scope: Scope, product: string, amount: Amount, fate: Fate, pruned: bool)

  datatype System = System(rows: seq<Row>, nextId: nat, calls: seq<Call>)

  const INIT := System([], 1, [])

  datatype Step =
    | Begin(owner: (string, string), product: string, amount: Amount, day: int)
    | Finish(call: nat, ending: Ending)   // the body ends
    | Settle(call: nat)                   // the ledger commits or releases
    | Abandon(call: nat)                  // cancelled while waiting for the ledger
    | Prune(cutoff: int)

  /** A call settles its own reservation, once. A refused reservation is no step: it changes nothing. */
  predicate Enabled(s: System, limit: Option<Amount>, step: Step) {
    match step {
      case Begin(owner, _, amount, day) => limit.None? || Usage(s.rows, Scope(day, owner)) + amount <= limit.value
      case Finish(call, _) => call < |s.calls| && s.calls[call].fate == InFlight
      case Settle(call) => call < |s.calls| && s.calls[call].fate.Unsettled?
      case Abandon(call) => call < |s.calls| && s.calls[call].fate.Unsettled?
      case Prune(_) => true
    }
  }

  function MarkPruned(calls: seq<Call>, cutoff: int): (marked: seq<Call>)
    ensures |marked| == |calls|
    ensures forall i | 0 <= i < |calls| ::
              marked[i] == if calls[i].scope.day < cutoff then calls[i].(pruned := true) else calls[i]
  {
    seq(|calls|, i requires 0 <= i < |calls| =>
      if calls[i].scope.day < cutoff then calls[i].(pruned := true) else calls[i])
  }

  function WithFate(calls: seq<Call>, call: nat, fate: Fate): seq<Call>
    requires call < |calls|
  {
    calls[call := calls[call].(fate := fate)]
  }

  function Apply(s: System, limit: Option<Amount>, step: Step): System
    requires Enabled(s, limit, step)
  {
    match step {
      case Begin(owner, product, amount, day) =>
        System(s.rows + [Row(s.nextId, day, owner, product, amount, Reserved)],
               s.nextId + 1,
               s.calls + [Call(Scope(day, owner), product, amount, InFlight, false)])
      case Finish(call, ending) =>
        s.(calls := WithFate(s.calls, call, if Settlement(ending).Some? then Unsettled(ending) else Abandoned))
      case Settle(call) =>
        var ending := s.calls[call].fate.ending;
        s.(rows := if Settlement(ending).Some? then WithStatus(s.rows, call + 1, Settlement(ending).value) else s.rows,
           calls := WithFate(s.calls, call, Settled(ending)))
      case Abandon(call) => s.(calls := WithFate(s.calls, call, Abandoned))
      case Prune(cutoff) =>
        s.(rows := Since(s.rows, cutoff), calls := MarkPruned(s.calls, cutoff))
    }
  }

  ghost predicate Run(s: System, limit: Option<Amount>, steps: seq<Step>, t: System)
    decreases |steps|
  {
    if steps == [] then t == s
    else Enabled(s, limit, steps[0]) && Run(Apply(s, limit, steps[0]), limit, steps[1..], t)
  }

  function StatusOf(fate: Fate): Status {
    if fate.Settled? && Settlement(fate.ending).Some? then Settlement(fate.ending).value else Reserved
  }

  /** The row of one call, if it was not pruned. */
  function RowOf(id: nat, c: Call): seq<Row> {
    if c.pruned then [] else [Row(id, c.scope.day, c.scope.owner, c.product, c.amount, StatusOf(c.fate))]
  }

  /** The table that the history of calls accounts for. */
  function Expected(calls: seq<Call>): seq<Row> {
    if calls == [] then []
    else
      var n := |calls| - 1;
      Expected(calls[..n]) + RowOf(n + 1, calls[n])
  }

  ghost predicate Inv(s: System, limit: Option<Amount>) {
    && s.nextId == |s.calls| + 1
    && s.rows == Expected(s.calls)
    && WithinLimit(s.rows, limit)
  }

  lemma {:induction false} ExpectedIds(calls: seq<Call>)
    ensures forall row <- Expected(calls) :: 1 <= row.id <= |calls|
  {
    if calls == [] {
    } else {
      ExpectedIds(calls[..|calls| - 1]);
    }
  }

  lemma SinceSnoc(rows: seq<Row>, more: seq<Row>, cutoff: int)
    requires |more| <= 1
    ensures Since(rows + more, cutoff) == Since(rows, cutoff) + Since(more, cutoff)
  {
    if |more| == 1 {
      assert (rows + more)[..|rows|] == rows;
    } else {
      assert rows + more == rows;
    }
  }

  lemma ExpectedSnoc(calls: seq<Call>, c: Call)
    ensures Expected(calls + [c]) == Expected(calls) + RowOf(|calls| + 1, c)
  {
    hide RowOf;
    var all := calls + [c];
    assert all[..|all| - 1] == calls && all[|all| - 1] == c;
  }

  /** Settling call k rewrites its own row and no other - and nothing at all once its row was pruned. */
  lemma {:induction false} ExpectedAfterSettle(calls: seq<Call>, k: nat, ending: Ending)
    requires k < |calls| && !calls[k].fate.Settled? && Settlement(ending).Some?
    ensures Expected(WithFate(calls, k, Settled(ending))) == WithStatus(Expected(calls), k + 1, Settlement(ending).value)
  {
    hide Expected, WithStatus;
    var n, status := |calls| - 1, Settlement(ending).value;
    var front, last := calls[..n], calls[n];
    assert calls == front + [last];
    ExpectedSnoc(front, last);
    WithStatusSnoc(Expected(front), RowOf(n + 1, last), k + 1, status);
    if k < n {
      ExpectedAfterSettle(front, k, ending);
      var front' := WithFate(front, k, Settled(ending));
      assert WithFate(calls, k, Settled(ending)) == front' + [last];
      ExpectedSnoc(front', last);
      WithStatusElsewhere(RowOf(n + 1, last), k + 1, status);
    } else {
      var last' := last.(fate := Settled(ending));
      assert calls[k := last'] == front + [last'];
      ExpectedSnoc(front, last');
      ExpectedIds(front);
      WithStatusElsewhere(Expected(front), k + 1, status);
      if !last.pruned {
        SettleLast([], RowOf(n + 1, last)[0], status);
        assert [] + [RowOf(n + 1, last)[0]] == RowOf(n + 1, last);
        assert [] + RowOf(n + 1, last') == RowOf(n + 1, last');
      } else {
        WithStatusElsewhere([], k + 1, status);
      }
    }
  }

  /** Until it is settled, nothing that becomes of a call changes the table. */
  lemma {:induction false} ExpectedUnsettled(calls: seq<Call>, k: nat, fate: Fate)
    requires k < |calls| && StatusOf(fate) == StatusOf(calls[k].fate)
    ensures Expected(WithFate(calls, k, fate)) == Expected(calls)
  {
    var n := |calls| - 1;
    var after := WithFate(calls, k, fate);
    if k < n {
      ExpectedUnsettled(calls[..n], k, fate);
      assert after[..n] == WithFate(calls[..n], k, fate);
    } else {
      assert after[..n] == calls[..n];
    }
  }

  lemma SinceNothing(cutoff: int)
    ensures Since([], cutoff) == []
  {
  }

  lemma RowAfterPrune(id: nat, c: Call, cutoff: int)
    ensures |RowOf(id, c)| <= 1
    ensures RowOf(id, if c.scope.day < cutoff then c.(pruned := true) else c) == Since(RowOf(id, c), cutoff)
  {
  }

  lemma {:induction false} ExpectedAfterPrune(calls: seq<Call>, cutoff: int)
    ensures Expected(MarkPruned(calls, cutoff)) == Since(Expected(calls), cutoff)
  {
    hide RowOf, Since;
    if calls != [] {
      var n := |calls| - 1;
      ExpectedAfterPrune(calls[..n], cutoff);
      assert MarkPruned(calls, cutoff)[..n] == MarkPruned(calls[..n], cutoff);
      RowAfterPrune(n + 1, calls[n], cutoff);
      SinceSnoc(Expected(calls[..n]), RowOf(n + 1, calls[n]), cutoff);
    } else {
      SinceNothing(cutoff);
    }
  }

  lemma {:induction false} ExpectedRow(calls: seq<Call>, k: nat)
    requires k < |calls|
    ensures forall row <- Expected(calls) :: row.id == k + 1 ==> row.status == StatusOf(calls[k].fate)
  {
    var n := |calls| - 1;
    ExpectedIds(calls[..n]);
    if k == n {
    } else {
      ExpectedRow(calls[..n], k);
    }
  }

  /** A reservation is accepted exactly if the limit still holds with it. */
  lemma AcceptedExactlyWithinLimit(s: System, limit: Option<Amount>, step: Step)
    requires WithinLimit(s.rows, limit) && step.Begin?
    ensures Enabled(s, limit, step) <==>
            WithinLimit(s.rows + [Row(s.nextId, step.day, step.owner, step.product, step.amount, Reserved)], limit)
  {
    hide Usage;
    var row := Row(s.nextId, step.day, step.owner, step.product, step.amount, Reserved);
    UsageAfterInsert(s.rows, row);
    var own := Scope(step.day, step.owner);
    assert limit.Some? ==> (WithinLimit(s.rows + [row], limit) ==> Usage(s.rows + [row], own) <= limit.value);
    assert forall scope :: InScope(row, scope) ==> scope == own;
  }

  lemma BeginKeepsInv(s: System, limit: Option<Amount>, step: Step)
    requires Inv(s, limit) && step.Begin? && Enabled(s, limit, step)
    ensures Inv(Apply(s, limit, step), limit)
  {
    var t := Apply(s, limit, step);
    assert t.calls[..|s.calls|] == s.calls;
    UsageAfterInsert(s.rows, t.rows[|s.rows|]);
  }

  lemma UnsettledKeepsInv(s: System, limit: Option<Amount>, step: Step)
    requires Inv(s, limit) && (step.Finish? || step.Abandon?) && Enabled(s, limit, step)
    ensures Inv(Apply(s, limit, step), limit)
  {
    hide Expected, Usage;
    ExpectedUnsettled(s.calls, step.call, Apply(s, limit, step).calls[step.call].fate);
  }

  lemma SettleKeepsInv(s: System, limit: Option<Amount>, step: Step)
    requires Inv(s, limit) && step.Settle? && Enabled(s, limit, step)
    ensures Inv(Apply(s, limit, step), limit)
  {
    hide Expected, WithStatus, Usage;
    var ending := s.calls[step.call].fate.ending;
    if Settlement(ending).None? {
      ExpectedUnsettled(s.calls, step.call, Settled(ending));
    } else {
      ExpectedAfterSettle(s.calls, step.call, ending);
      ExpectedRow(s.calls, step.call);
      UsageAfterStatus(s.rows, step.call + 1, Settlement(ending).value);
    }
  }

  lemma PruneKeepsInv(s: System, limit: Option<Amount>, step: Step)
    requires Inv(s, limit) && step.Prune? && Enabled(s, limit, step)
    ensures Inv(Apply(s, limit, step), limit)
  {
    ExpectedAfterPrune(s.calls, step.cutoff);
    forall scope ensures Usage(Since(s.rows, step.cutoff), scope) <= Usage(s.rows, scope) {
      UsageAfterDelete(s.rows, step.cutoff, scope);
    }
  }

  lemma StepKeepsInv(s: System, limit: Option<Amount>, step: Step)
    requires Inv(s, limit) && Enabled(s, limit, step)
    ensures Inv(Apply(s, limit, step), limit)
  {
    match step {
      case Begin(_, _, _, _) => BeginKeepsInv(s, limit, step);
      case Settle(_) => SettleKeepsInv(s, limit, step);
      case Prune(_) => PruneKeepsInv(s, limit, step);
      case _ => UnsettledKeepsInv(s, limit, step);
    }
  }

  lemma {:induction false} RunKeepsInv(s: System, limit: Option<Amount>, steps: seq<Step>, t: System)
    requires Inv(s, limit) && Run(s, limit, steps, t)
    ensures Inv(t, limit)
    decreases |steps|
  {
    if steps == [] {
    } else {
      StepKeepsInv(s, limit, steps[0]);
      RunKeepsInv(Apply(s, limit, steps[0]), limit, steps[1..], t);
    }
  }

  lemma InitInv(limit: Option<Amount>)
    ensures Inv(INIT, limit)
  {
  }

  /** In every run, no owner's reserved plus committed total on any day exceeds the daily limit. */
  lemma BudgetSafety(limit: Option<Amount>, steps: seq<Step>, t: System)
    requires limit.Some? && Run(INIT, limit, steps, t)
    ensures forall scope :: Total(t.rows, scope, Reserved) + Total(t.rows, scope, Committed) <= limit.value
  {
    RunKeepsInv(INIT, limit, steps, t);
    forall scope ensures Total(t.rows, scope, Reserved) + Total(t.rows, scope, Committed) <= limit.value {
      assert Usage(t.rows, scope) <= limit.value;
    }
  }

  /** What a call's fate means for its money. */
  function MoneyOf(fate: Fate): Status {
    match fate {
      case Settled(Succeeded) => Committed
      case Settled(AmbiguousError) => Committed
      case Settled(OtherProviderError) => Released
      case Settled(OtherException) => Released
      case _ => Reserved
    }
  }

  /** Summed estimates of the calls of a scope whose money is committed, released or reserved. */
  function Charged(calls: seq<Call>, scope: Scope, status: Status): Amount {
    if calls == [] then 0.0
    else
      var c := calls[|calls| - 1];
      Charged(calls[..|calls| - 1], scope, status)
      + if c.scope == scope && MoneyOf(c.fate) == status then c.amount else 0.0
  }

  ghost predicate Unpruned(calls: seq<Call>, scope: Scope) {
    forall c <- calls :: c.scope == scope ==> !c.pruned
  }

  lemma TotalOfRow(rows: seq<Row>, id: nat, c: Call, scope: Scope, status: Status)
    requires c.scope == scope ==> !c.pruned
    ensures Total(rows + RowOf(id, c), scope, status) ==
            Total(rows, scope, status) + if c.scope == scope && MoneyOf(c.fate) == status then c.amount else 0.0
  {
    if c.pruned {
      assert rows + RowOf(id, c) == rows;
    } else {
      var all := rows + RowOf(id, c);
      assert all[..|all| - 1] == rows && all[|all| - 1] == RowOf(id, c)[0];
    }
  }

  lemma {:induction false} ExpectedTotals(calls: seq<Call>, scope: Scope, status: Status)
    requires Unpruned(calls, scope)
    ensures Total(Expected(calls), scope, status) == Charged(calls, scope, status)
  {
    if calls == [] {
    } else {
      var n := |calls| - 1;
      ExpectedTotals(calls[..n], scope, status);
      TotalOfRow(Expected(calls[..n]), n + 1, calls[n], scope, status);
    }
  }

  /**
   In every run, on a day that was not pruned: the committed total of an owner is the sum of the
   estimates of its calls that settled after a success or an ambiguous failure; the reserved total that
   of its calls in flight, not settled yet, or cancelled before they settled; the released total that of
   its calls that settled after another failure.
   */
  lemma LedgerConservation(limit: Option<Amount>, steps: seq<Step>, t: System, scope: Scope)
    requires Run(INIT, limit, steps, t) && Unpruned(t.calls, scope)
    ensures forall status :: Total(t.rows, scope, status) == Charged(t.calls, scope, status)
  {
    RunKeepsInv(INIT, limit, steps, t);
    forall status ensures Total(t.rows, scope, status) == Charged(t.calls, scope, status) {
      ExpectedTotals(t.calls, scope, status);
    }
  }

  lemma {:induction false} PrunedHasNoRow(calls: seq<Call>, k: nat)
    requires k < |calls| && calls[k].pruned
    ensures forall row <- Expected(calls) :: row.id != k + 1
  {
    var n := |calls| - 1;
    ExpectedIds(calls[..n]);
    if k == n {
    } else {
      PrunedHasNoRow(calls[..n], k);
    }
  }

  /** Settling a call whose row was pruned touches no row: ids are not handed out twice. */
  lemma SettlingPrunedIsHarmless(limit: Option<Amount>, steps: seq<Step>, s: System, call: nat)
    requires Run(INIT, limit, steps, s) && Enabled(s, limit, Settle(call)) && s.calls[call].pruned
    ensures Apply(s, limit, Settle(call)).rows == s.rows
  {
    hide Run, Expected, WithStatus, Usage;
    InitInv(limit);
    RunKeepsInv(INIT, limit, steps, s);
    PrunedHasNoRow(s.calls, call);
    var ending := s.calls[call].fate.ending;
    if Settlement(ending).Some? {
      WithStatusElsewhere(s.rows, call + 1, Settlement(ending).value);
    }
  }
}
