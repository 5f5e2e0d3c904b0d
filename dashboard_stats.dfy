/**
 * The dashboard statistics handler: the session check, the active-repairs
 * rule and the status table filled from the grouped counts.  The grouped
 * rows and the order table are inputs; the other figures of the reply
 * (vehicles, clients, today's appointments, recent orders) are not modelled.
 */
module DashboardStats {
  import opened Wrappers
  import opened Repairs

  /** One row of the `groupBy`: a status and its `_count`. */
  datatype Group = Group(status: Status, count: nat)

  /** The stored order fields the counts look at. */
  datatype OrderRow = OrderRow(companyId: string, status: Status)

  /** The count the last row for `s` carries, or 0 when no row names `s`. */
  function LastCount(rows: seq<Group>, s: Status): nat
    decreases |rows|
  {
    if rows == [] then 0
    else if rows[|rows| - 1].status == s then rows[|rows| - 1].count
    else LastCount(rows[..|rows| - 1], s)
  }

  /** A status no row names keeps its 0. */
  lemma {:induction false} AbsentStatusIsZero(rows: seq<Group>, s: Status)
    requires forall i :: 0 <= i < |rows| ==> rows[i].status != s
    ensures LastCount(rows, s) == 0
    decreases |rows|
  {
    if rows != [] {
      var front := rows[..|rows| - 1];
      assert forall i :: 0 <= i < |front| ==> front[i] == rows[i];
      AbsentStatusIsZero(front, s);
    }
  }

  /** The last row naming `s` decides its entry (the `forEach` overwrites). */
  lemma {:induction false} LastRowWins(rows: seq<Group>, s: Status, i: int)
    requires 0 <= i < |rows| && rows[i].status == s
    requires forall j :: i < j < |rows| ==> rows[j].status != s
    ensures LastCount(rows, s) == rows[i].count
    decreases |rows|
  {
    if i < |rows| - 1 {
      var front := rows[..|rows| - 1];
      assert front[i] == rows[i];
      LastRowWins(front, s, i);
    }
  }

  /** Lines 92-103: all six keys start at 0 and each row overwrites its status's entry. */
  method FormatStatusCounts(rows: seq<Group>) returns (table: map<Status, nat>)
    ensures forall s :: s in table
    ensures forall s :: table[s] == LastCount(rows, s)
  {
    table := map[Reception := 0, Diagnosis := 0, WaitingParts := 0, InRepair := 0, Ready := 0, Delivered := 0];
    forall s ensures s in table {
      assert s.Reception? || s.Diagnosis? || s.WaitingParts? || s.InRepair? || s.Ready? || s.Delivered?;
    }
    var i := 0;
    while i < |rows|
      invariant 0 <= i <= |rows|
      invariant forall s :: s in table
      invariant forall s :: table[s] == LastCount(rows[..i], s)
    {
      table := table[rows[i].status := rows[i].count];
      assert rows[..i + 1][..i] == rows[..i];
      i := i + 1;
    }
    assert rows[..i] == rows;
  }

  /** The number of a company's orders in status `s`. */
  function CountStatus(orders: seq<OrderRow>, companyId: string, s: Status): nat
    decreases |orders|
  {
    if orders == [] then 0
    else CountStatus(orders[1..], companyId, s) + (if orders[0] == OrderRow(companyId, s) then 1 else 0)
  }

  /** The number of a company's orders. */
  function CountCompany(orders: seq<OrderRow>, companyId: string): nat
    decreases |orders|
  {
    if orders == [] then 0
    else CountCompany(orders[1..], companyId) + (if orders[0].companyId == companyId then 1 else 0)
  }

  /** The active-repairs count of lines 44-49: the company's orders not `DELIVERED`. */
  function ActiveRepairs(orders: seq<OrderRow>, companyId: string): nat
    decreases |orders|
  {
    if orders == [] then 0
    else
      var here := if orders[0].companyId == companyId && orders[0].status != Delivered then 1 else 0;
      ActiveRepairs(orders[1..], companyId) + here
  }

  /** Active orders are the company's orders minus the delivered ones, i.e. the other five statuses together. */
  lemma {:induction false} ActiveIsAllButDelivered(orders: seq<OrderRow>, companyId: string)
    ensures ActiveRepairs(orders, companyId) + CountStatus(orders, companyId, Delivered) == CountCompany(orders, companyId)
    ensures ActiveRepairs(orders, companyId) ==
      CountStatus(orders, companyId, Reception) + CountStatus(orders, companyId, Diagnosis) +
      CountStatus(orders, companyId, WaitingParts) + CountStatus(orders, companyId, InRepair) +
      CountStatus(orders, companyId, Ready)
    decreases |orders|
  {
    if orders != [] {
      ActiveIsAllButDelivered(orders[1..], companyId);
    }
  }

  /** `rows` is what the `groupBy` of lines 84-88 returns for the company: one row per status present, with its count. */
  predicate IsGrouping(rows: seq<Group>, orders: seq<OrderRow>, companyId: string) {
    (forall i, j :: 0 <= i < j < |rows| ==> rows[i].status != rows[j].status) &&
    (forall i :: 0 <= i < |rows| ==> rows[i].count == CountStatus(orders, companyId, rows[i].status)) &&
    (forall s :: CountStatus(orders, companyId, s) > 0 ==> exists i :: 0 <= i < |rows| && rows[i].status == s)
  }

  /** From a faithful grouping, the table holds the company's count for every status. */
  lemma TableHoldsCounts(rows: seq<Group>, orders: seq<OrderRow>, companyId: string, s: Status)
    requires IsGrouping(rows, orders, companyId)
    ensures LastCount(rows, s) == CountStatus(orders, companyId, s)
  {
    if i :| 0 <= i < |rows| && rows[i].status == s {
      LastRowWins(rows, s, i);
    } else {
      AbsentStatusIsZero(rows, s);
    }
  }

  /** The reply: 401, or the two figures modelled here. */
  datatype StatsResponse = Unauthorized | Stats(activeRepairs: nat, statusCounts: map<Status, nat>)

  /**
   * `GET /api/dashboard/stats` on the order table `orders` and the grouped
   * rows `rows`: without a company the answer is 401 and nothing is computed.
   */
  method GetStats(session: Option<Session>, orders: seq<OrderRow>, rows: seq<Group>) returns (resp: StatsResponse)
    ensures !SignedIn(session) <==> resp == Unauthorized
    ensures resp.Stats? ==>
      resp.activeRepairs == ActiveRepairs(orders, session.value.companyId.value) &&
      (forall s :: s in resp.statusCounts && resp.statusCounts[s] == LastCount(rows, s))
  {
    if session.None? || !Truthy(session.value.companyId) {
      return Unauthorized;
    }
    var companyId := session.value.companyId.value;
    var active := ActiveRepairs(orders, companyId);
    var table := FormatStatusCounts(rows);
    resp := Stats(active, table);
  }

  /** With a faithful grouping, the reply's table and active count agree: active is everything not delivered. */
  lemma StatsAreConsistent(session: Option<Session>, orders: seq<OrderRow>, rows: seq<Group>, table: map<Status, nat>)
    requires SignedIn(session) && IsGrouping(rows, orders, session.value.companyId.value)
    requires forall s :: s in table && table[s] == LastCount(rows, s)
    ensures ActiveRepairs(orders, session.value.companyId.value) + table[Delivered] ==
      CountCompany(orders, session.value.companyId.value)
  {
    var c := session.value.companyId.value;
    TableHoldsCounts(rows, orders, c, Delivered);
    ActiveIsAllButDelivered(orders, c);
  }
}
