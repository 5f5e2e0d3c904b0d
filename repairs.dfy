/**
 * The POST handler that opens a repair order: the session and required-field
 * checks, the cleaning of the optional ids, the ownership checks in their
 * order, the order number and the new order with its first log entry.  The
 * database tables are fields of `Store`; JSON values are modelled as
 * optional strings.
 */
module Repairs {
  import opened Wrappers

  /** The six states of a repair order, in workshop order. */
  datatype Status = Reception | Diagnosis | WaitingParts | InRepair | Ready | Delivered

  /** JavaScript truthiness of an optional string: present and not empty. */
  predicate Truthy(v: Option<string>) {
    v.Some? && v.value != ""
  }

  /** `x || null`. */
  function OrNull(v: Option<string>): Option<string> {
    if Truthy(v) then v else None
  }

  /** `|| null` never stores `''`, keeps every non-empty value, and is idempotent. */
  lemma OrNullIsClean(v: Option<string>)
    ensures OrNull(v) != Some("")
    ensures OrNull(v) == None || OrNull(v) == v
    ensures v.Some? && v.value != "" ==> OrNull(v) == v
    ensures OrNull(OrNull(v)) == OrNull(v)
  {
  }

  /** The cleaning of lines 91-92: a falsy value, `''` or the form's sentinel becomes `null`. */
  function CleanId(raw: Option<string>, sentinel: string): (r: Option<string>)
    ensures r == None || r == raw
    ensures r != Some("") && r != Some(sentinel)
  {
    if Truthy(raw) && raw.value != sentinel then raw else None
  }

  /** The placeholder the form sends when no client was chosen. */
  const NoClient: string := "no_client"
  /** The placeholder the form sends when nobody was assigned. */
  const NoAssignment: string := "no_assignment"

  /** Cleaning keeps every real id, and cleaning it again changes nothing. */
  lemma CleanIdIsClean(raw: Option<string>, sentinel: string)
    ensures raw.Some? && raw.value != "" && raw.value != sentinel ==> CleanId(raw, sentinel) == raw
    ensures CleanId(CleanId(raw, sentinel), sentinel) == CleanId(raw, sentinel)
  {
  }

  // ---------------------------------------------------------------------
  // Order numbers

  /** The decimal digit characters. */
  predicate IsDigit(c: char) {
    '0' <= c <= '9'
  }

  predicate AllDigits(s: string) {
    forall i :: 0 <= i < |s| ==> IsDigit(s[i])
  }

  function DigitChar(d: nat): (c: char)
    requires d < 10
    ensures IsDigit(c) && c as int - '0' as int == d
  {
    ('0' as int + d) as char
  }

  /** `String(n)` for a non-negative integer: no sign, no leading zero. */
  function Decimal(n: nat): (r: string)
    ensures |r| >= 1 && AllDigits(r)
    ensures n > 0 ==> r[0] != '0'
    decreases n
  {
    if n < 10 then [DigitChar(n)] else Decimal(n / 10) + [DigitChar(n % 10)]
  }

  /** The value of a digit string, as `parseInt` reads it. */
  function ParseDecimal(s: string): nat
    requires AllDigits(s)
    decreases |s|
  {
    if s == [] then 0 else ParseDecimal(s[..|s| - 1]) * 10 + (s[|s| - 1] as int - '0' as int)
  }

  /** Reading back what `Decimal` wrote gives the number. */
  lemma {:induction false} ParseDecimalOfDecimal(n: nat)
    ensures ParseDecimal(Decimal(n)) == n
    decreases n
  {
    if n >= 10 {
      var s := Decimal(n);
      assert s[..|s| - 1] == Decimal(n / 10);
      ParseDecimalOfDecimal(n / 10);
    }
  }

  /** `k` copies of the fill character `'0'`. */
  function Zeros(k: nat): (r: string)
    ensures |r| == k && AllDigits(r)
    ensures forall i :: 0 <= i < k ==> r[i] == '0'
  {
    seq(k, i => '0')
  }

  lemma {:induction false} ParseZeros(k: nat)
    ensures ParseDecimal(Zeros(k)) == 0
    decreases k
  {
    if k > 0 {
      assert Zeros(k)[..k - 1] == Zeros(k - 1);
      ParseZeros(k - 1);
    }
  }

  /** Leading zeros do not change the value. */
  lemma {:induction false} ParseLeadingZeros(k: nat, s: string)
    requires AllDigits(s)
    ensures AllDigits(Zeros(k) + s)
    ensures ParseDecimal(Zeros(k) + s) == ParseDecimal(s)
    decreases |s|
  {
    var t := Zeros(k) + s;
    assert AllDigits(t) by {
      forall i | 0 <= i < |t| ensures IsDigit(t[i]) {
        if i < k { assert t[i] == Zeros(k)[i]; } else { assert t[i] == s[i - k]; }
      }
    }
    if s == [] {
      assert t == Zeros(k);
      ParseZeros(k);
    } else {
      var n := |s| - 1;
      assert t[..|t| - 1] == Zeros(k) + s[..n];
      assert t[|t| - 1] == s[n];
      ParseLeadingZeros(k, s[..n]);
    }
  }

  /** `s.padStart(width, '0')`: zeros in front up to `width` characters; a longer `s` is kept whole. */
  function PadStart(s: string, width: nat): (r: string)
    ensures |r| == if |s| >= width then |s| else width
    ensures r == Zeros(|r| - |s|) + s
  {
    if |s| >= width then
      assert s == [] + s;
      s
    else Zeros(width - |s|) + s
  }

  /** The order number of line 157 for a company that already has `count` orders. */
  function OrderNumber(count: nat): string {
    "RO-" + PadStart(Decimal(count + 1), 6)
  }

  /** The inverse reading: the sequence number an order number carries, if it has the shape. */
  function OrderSequence(orderNumber: string): Option<nat> {
    if |orderNumber| >= 3 && orderNumber[..3] == "RO-" && AllDigits(orderNumber[3..]) then
      Some(ParseDecimal(orderNumber[3..]))
    else None
  }

  /** The order number names the count plus one. */
  lemma OrderNumberRoundTrip(count: nat)
    ensures OrderSequence(OrderNumber(count)) == Some(count + 1)
  {
    var d := Decimal(count + 1);
    var p := PadStart(d, 6);
    var s := OrderNumber(count);
    assert s[..3] == "RO-" && s[3..] == p;
    ParseLeadingZeros(|p| - |d|, d);
    ParseDecimalOfDecimal(count + 1);
  }

  /** Distinct counts give distinct order numbers. */
  lemma OrderNumberInjective(a: nat, b: nat)
    ensures OrderNumber(a) == OrderNumber(b) ==> a == b
  {
    OrderNumberRoundTrip(a);
    OrderNumberRoundTrip(b);
  }

  /** `RO-`, then at least six digits ending in the full decimal of the count plus one. */
  lemma OrderNumberShape(count: nat)
    ensures var d := Decimal(count + 1);
      |OrderNumber(count)| == 3 + (if |d| >= 6 then |d| else 6) &&
      OrderNumber(count)[..3] == "RO-" && AllDigits(OrderNumber(count)[3..]) &&
      OrderNumber(count)[|OrderNumber(count)| - |d|..] == d
  {
    var d := Decimal(count + 1);
    var p := PadStart(d, 6);
    var s := OrderNumber(count);
    assert s[3..] == p;
    assert p == Zeros(|p| - |d|) + d;
    ParseLeadingZeros(|p| - |d|, d);
    assert s[|s| - |d|..] == p[|p| - |d|..];
  }

  function Pow10(k: nat): nat {
    if k == 0 then 1 else 10 * Pow10(k - 1)
  }

  /** A number below `10^k` has at most `k` digits. */
  lemma {:induction false} DecimalLength(n: nat, k: nat)
    requires k >= 1 && n < Pow10(k)
    ensures |Decimal(n)| <= k
    decreases k
  {
    if n >= 10 {
      DecimalLength(n / 10, k - 1);
    }
  }

  /** Up to 999999 orders the number is `RO-` and exactly six digits. */
  lemma OrderNumberSixDigits(count: nat)
    requires count + 1 < 1000000
    ensures |OrderNumber(count)| == 9
  {
    assert Pow10(6) == 1000000;
    DecimalLength(count + 1, 6);
  }

  // ---------------------------------------------------------------------
  // The handler

  /** A row of a company-owned table: its id and its company. */
  datatype Owned = Owned(id: string, companyId: string)

  /** A repair order as stored (cost and end date are not modelled). */
  datatype RepairOrder = RepairOrder(
    id: nat, orderNumber: string, clientId: Option<string>, vehicleId: string, companyId: string,
    problem: string, diagnosis: Option<string>, assignedToId: Option<string>,
    parkingSpot: Option<string>, notes: Option<string>, status: Status)

  /** An entry of the order's status history. */
  datatype RepairLog = RepairLog(repairOrderId: nat, userId: string, newStatus: Status, notes: string)

  /** The signed-in user as the session gives it. */
  datatype Session = Session(companyId: Option<string>, userId: string)

  /** The fields of the request body the handler reads. */
  datatype RequestBody = RequestBody(
    clientId: Option<string>, vehicleId: Option<string>, problem: Option<string>,
    diagnosis: Option<string>, assignedToId: Option<string>, parkingSpot: Option<string>,
    notes: Option<string>)

  /** The database calls, in the order the handler makes them. */
  datatype Query = FindVehicle | FindClient | FindEmployee | CountOrders | CreateOrder | CreateLog

  /** The HTTP reply: status code, error text, and the created order on success. */
  datatype Response = Response(code: nat, error: Option<string>, created: Option<RepairOrder>)

  /** What the checks before the insertion decide. */
  datatype Decision =
    | Reject(code: nat, message: string, lookups: seq<Query>)
    | Proceed(companyId: string, userId: string, body: RequestBody, lookups: seq<Query>)

  const VehicleMissing: string := "Vehicle not found or does not belong to your company"
  const ClientMissing: string := "Client not found or does not belong to your company"
  const EmployeeMissing: string := "Employee not found or does not belong to your company"
  const FieldsMissing: string := "Vehicle and problem description are required"

  /** The session carries a company (line 63). */
  predicate SignedIn(session: Option<Session>) {
    session.Some? && Truthy(session.value.companyId)
  }

  /**
   * The early returns of lines 63-151, in order: session, body, required
   * fields, then the ownership of the vehicle, the client (when one is
   * given) and the employee (when one is assigned).
   */
  function Decide(session: Option<Session>, body: Option<RequestBody>,
                  vehicles: set<Owned>, clients: set<Owned>, users: set<Owned>): Decision
  {
    if !SignedIn(session) then Reject(401, "Unauthorized", [])
    else if body.None? then Reject(500, "Internal server error", [])
    else
      var b := body.value;
      var company := session.value.companyId.value;
      if !Truthy(b.vehicleId) || !Truthy(b.problem) then Reject(400, FieldsMissing, [])
      else if Owned(b.vehicleId.value, company) !in vehicles then Reject(404, VehicleMissing, [FindVehicle])
      else
        var client := CleanId(b.clientId, NoClient);
        var assignee := CleanId(b.assignedToId, NoAssignment);
        var afterClient := if client.Some? then [FindVehicle, FindClient] else [FindVehicle];
        if client.Some? && Owned(client.value, company) !in clients then Reject(404, ClientMissing, afterClient)
        else if assignee.Some? && Owned(assignee.value, company) !in users then
          Reject(404, EmployeeMissing, afterClient + [FindEmployee])
        else
          Proceed(company, session.value.userId, b, afterClient + (if assignee.Some? then [FindEmployee] else []))
  }

  /** The number of stored orders of a company (the `count` of line 154). */
  function CountForCompany(orders: seq<RepairOrder>, companyId: string): nat
    decreases |orders|
  {
    if orders == [] then 0
    else CountForCompany(orders[..|orders| - 1], companyId) + (if orders[|orders| - 1].companyId == companyId then 1 else 0)
  }

  /** Storing an order of a company raises that company's count by one and no other. */
  lemma CountAfterCreate(orders: seq<RepairOrder>, o: RepairOrder, companyId: string)
    ensures CountForCompany(orders + [o], companyId) ==
      CountForCompany(orders, companyId) + (if o.companyId == companyId then 1 else 0)
  {
    assert (orders + [o])[..|orders|] == orders;
  }

  /** The order created for an accepted request (lines 174-188). */
  function NewOrder(id: nat, count: nat, companyId: string, b: RequestBody): RepairOrder
    requires Truthy(b.vehicleId) && Truthy(b.problem)
  {
    RepairOrder(id, OrderNumber(count), CleanId(b.clientId, NoClient), b.vehicleId.value, companyId,
      b.problem.value, OrNull(b.diagnosis), CleanId(b.assignedToId, NoAssignment),
      OrNull(b.parkingSpot), OrNull(b.notes), Reception)
  }

  /**
   * The stored order holds no placeholder: client and assignee are never
   * `''` or their sentinel, and no optional text is `''`.
   */
  lemma NewOrderHasNoPlaceholders(id: nat, count: nat, companyId: string, b: RequestBody)
    requires Truthy(b.vehicleId) && Truthy(b.problem)
    ensures var o := NewOrder(id, count, companyId, b);
      o.clientId != Some("") && o.clientId != Some(NoClient) &&
      o.assignedToId != Some("") && o.assignedToId != Some(NoAssignment) &&
      o.diagnosis != Some("") && o.parkingSpot != Some("") && o.notes != Some("") &&
      o.vehicleId != "" && o.problem != "" && o.status == Reception
  {
    OrNullIsClean(b.diagnosis);
    OrNullIsClean(b.parkingSpot);
    OrNullIsClean(b.notes);
  }

  /** Without a company in the session the answer is 401, whatever the body, and nothing is looked up. */
  lemma UnauthorizedFirst(session: Option<Session>, body: Option<RequestBody>,
                          vehicles: set<Owned>, clients: set<Owned>, users: set<Owned>)
    requires !SignedIn(session)
    ensures Decide(session, body, vehicles, clients, users) == Reject(401, "Unauthorized", [])
  {
  }

  /** A missing vehicle or problem gives 400 before any lookup. */
  lemma RequiredFieldsBeforeLookups(session: Option<Session>, b: RequestBody,
                                    vehicles: set<Owned>, clients: set<Owned>, users: set<Owned>)
    requires SignedIn(session)
    requires !Truthy(b.vehicleId) || !Truthy(b.problem)
    ensures Decide(session, Some(b), vehicles, clients, users) == Reject(400, FieldsMissing, [])
  {
  }

  /**
   * The first failing ownership check decides the 404: the vehicle before
   * the client, the client before the employee.
   */
  lemma OwnershipCheckOrder(session: Option<Session>, b: RequestBody,
                            vehicles: set<Owned>, clients: set<Owned>, users: set<Owned>)
    requires SignedIn(session) && Truthy(b.vehicleId) && Truthy(b.problem)
    ensures var d := Decide(session, Some(b), vehicles, clients, users);
      var company := session.value.companyId.value;
      var client := CleanId(b.clientId, NoClient);
      var assignee := CleanId(b.assignedToId, NoAssignment);
      (Owned(b.vehicleId.value, company) !in vehicles ==> d == Reject(404, VehicleMissing, [FindVehicle])) &&
      (Owned(b.vehicleId.value, company) in vehicles && client.Some? && Owned(client.value, company) !in clients ==>
        d == Reject(404, ClientMissing, [FindVehicle, FindClient])) &&
      (Owned(b.vehicleId.value, company) in vehicles && (client.None? || Owned(client.value, company) in clients) &&
        assignee.Some? && Owned(assignee.value, company) !in users ==>
        d == Reject(404, EmployeeMissing, (if client.Some? then [FindVehicle, FindClient] else [FindVehicle]) + [FindEmployee]))
  {
  }

  /** A request goes through exactly when every check passes. */
  lemma ProceedIffAllChecksPass(session: Option<Session>, body: Option<RequestBody>,
                                vehicles: set<Owned>, clients: set<Owned>, users: set<Owned>)
    ensures Decide(session, body, vehicles, clients, users).Proceed? <==>
      SignedIn(session) && body.Some? && Truthy(body.value.vehicleId) && Truthy(body.value.problem) &&
      var company := session.value.companyId.value;
      var client := CleanId(body.value.clientId, NoClient);
      var assignee := CleanId(body.value.assignedToId, NoAssignment);
      Owned(body.value.vehicleId.value, company) in vehicles &&
      (client.None? || Owned(client.value, company) in clients) &&
      (assignee.None? || Owned(assignee.value, company) in users)
  {
  }

  /** The tables the handler reads and writes. */
  class Store {
    var vehicles: set<Owned>
    var clients: set<Owned>
    var users: set<Owned>
    var orders: seq<RepairOrder>
    var logs: seq<RepairLog>

    constructor (vehicles: set<Owned>, clients: set<Owned>, users: set<Owned>)
      ensures this.vehicles == vehicles && this.clients == clients && this.users == users
      ensures orders == [] && logs == []
    {
      this.vehicles := vehicles;
      this.clients := clients;
      this.users := users;
      orders := [];
      logs := [];
    }

    /**
     * `POST /api/repairs`.  A rejected request changes nothing; an accepted
     * one stores a `RECEPTION` order numbered from the company's count, and
     * a log entry whose new status is `RECEPTION`, and answers 201.
     * `queries` lists the database calls made, in order.
     */
    method Post(session: Option<Session>, body: Option<RequestBody>) returns (resp: Response, queries: seq<Query>)
      modifies this
      ensures vehicles == old(vehicles) && clients == old(clients) && users == old(users)
      ensures var d := Decide(session, body, old(vehicles), old(clients), old(users));
        d.Reject? ==>
          resp == Response(d.code, Some(d.message), None) && queries == d.lookups &&
          orders == old(orders) && logs == old(logs)
      ensures var d := Decide(session, body, old(vehicles), old(clients), old(users));
        d.Proceed? ==>
          var o := NewOrder(|old(orders)|, CountForCompany(old(orders), d.companyId), d.companyId, d.body);
          resp == Response(201, None, Some(o)) &&
          queries == d.lookups + [CountOrders, CreateOrder, CreateLog] &&
          orders == old(orders) + [o] &&
          logs == old(logs) + [RepairLog(o.id, d.userId, Reception, "Repair order created")]
    {
      queries := [];
      if session.None? || !Truthy(session.value.companyId) {
        return Response(401, Some("Unauthorized"), None), queries;
      }
      if body.None? {
        return Response(500, Some("Internal server error"), None), queries;
      }
      var b := body.value;
      var company := session.value.companyId.value;
      if !Truthy(b.vehicleId) || !Truthy(b.problem) {
        return Response(400, Some(FieldsMissing), None), queries;
      }
      var cleanClientId := CleanId(b.clientId, NoClient);
      var cleanAssignedToId := CleanId(b.assignedToId, NoAssignment);

      queries := queries + [FindVehicle];
      if Owned(b.vehicleId.value, company) !in vehicles {
        return Response(404, Some(VehicleMissing), None), queries;
      }
      if cleanClientId.Some? {
        queries := queries + [FindClient];
        if Owned(cleanClientId.value, company) !in clients {
          return Response(404, Some(ClientMissing), None), queries;
        }
      }
      if cleanAssignedToId.Some? {
        queries := queries + [FindEmployee];
        if Owned(cleanAssignedToId.value, company) !in users {
          return Response(404, Some(EmployeeMissing), None), queries;
        }
      }

      queries := queries + [CountOrders];
      var orderCount := CountForCompany(orders, company);
      var order := RepairOrder(|orders|, OrderNumber(orderCount), cleanClientId, b.vehicleId.value, company,
        b.problem.value, OrNull(b.diagnosis), cleanAssignedToId, OrNull(b.parkingSpot), OrNull(b.notes), Reception);
      orders := orders + [order];
      queries := queries + [CreateOrder];
      logs := logs + [RepairLog(order.id, session.value.userId, Reception, "Repair order created")];
      queries := queries + [CreateLog];
      resp := Response(201, None, Some(order));
    }
  }

  /**
   * Two accepted requests of the same company in a row get different
   * order numbers, because the first raises the count the second reads.
   */
  lemma ConsecutiveOrdersNumberedApart(orders: seq<RepairOrder>, o: RepairOrder, companyId: string)
    requires o.companyId == companyId
    ensures OrderNumber(CountForCompany(orders + [o], companyId)) != OrderNumber(CountForCompany(orders, companyId))
  {
    CountAfterCreate(orders, o, companyId);
    OrderNumberInjective(CountForCompany(orders + [o], companyId), CountForCompany(orders, companyId));
  }
}
