/**
 * The request handlers of index.php over a store of the three tables.
 * Each handler is a method of `Store` that reads or updates its fields the
 * way the handler's statements update the database, and returns the
 * response `send_response` or `send_error` would send.
 */
module Api {
  import opened Text
  import opened Wrappers
  import opened PhpValues
  import opened DateTimes
  import opened Validation
  import opened Router
  import opened Tables

  /** The `data` of a successful response. */
  datatype Payload =
    | Info(message: string, version: string, timestamp: string, timezone: string)
    | Message(text: string)
    | Recorded(message: string, record: ClockEvent)
    | Logs(logs: seq<LogRow>)
    | Pending(pending: seq<PendingRow>)
    | Staff(staff: seq<Employee>)
    | Dashboard(stats: Stats)
    | User(userId: nat, name: string, email: string, role: string)

  /**
   * What a request gets back: `{"success": true, "data": …}` with a status,
   * `{"success": false, "error": …}` with a status, the bare 200 of a CORS
   * preflight, a CSV download, or the 500 page of an uncaught PHP error.
   */
  datatype Response =
    | Ok(code: nat, payload: Payload)
    | Err(code: nat, message: string)
    | Preflight
    | Csv(filename: string, header: seq<string>, rows: seq<ExportRow>)
    | Fatal

  /**
   * How the database behaves for one request: whether the connection opens,
   * which statement of the handler (counted from 0) raises a PDOException,
   * if any, and the message of the exception raised.
   */
  datatype Storage = Storage(reachable: bool, failing: Option<nat>, message: string)

  /**
   * Everything a request depends on besides the tables: PHP's clock and
   * zone, MySQL's clock, what `new DateTime` parses a text to (None when it
   * throws), `password_verify`, the hash `password_hash` yields for a text
   * in this request, and the storage's faults.
   */
  datatype Env = Env(now: DateTime, timezone: string, dbClock: DateTime,
                     parse: string -> Option<DateTime>, verify: (string, string) -> bool,
                     hash: string -> string, storage: Storage)

  /** Method, path, decoded body (null when absent or invalid) and the `start`/`end` query values. */
  datatype Request = Request(verb: string, path: string, body: Json, start: Option<string>, end: Option<string>)

  predicate Fails(env: Env, k: nat)
  {
    env.storage.failing == Some(k)
  }

  /** The 500 a handler's `catch (\\PDOException $e)` sends. */
  function Failure(prefix: string, env: Env): (r: Response)
    ensures r.Err? && r.code == 500
  {
    Err(500, prefix + env.storage.message)
  }

  /** The header row of both exports (index.php:594 and 631). */
  const ExportHeader: seq<string> := ["Employee Name", "Email", "Event Type", "Timestamp"]

  /** PHP truthiness of a query value: missing, "" and "0" are false. */
  predicate Truthy(v: Option<string>)
  {
    v.Some? && v.value != "" && v.value != "0"
  }

  /** The date filter of the log view: both bounds, or none (index.php:213). */
  function DateRange(start: Option<string>, end: Option<string>): (r: Option<(string, string)>)
    ensures r.Some? <==> Truthy(start) && Truthy(end)
    ensures r.Some? ==> r.value == (start.value, end.value)
  {
    if Truthy(start) && Truthy(end) then Some((start.value, end.value)) else None
  }

  /**
   * Without both bounds the log view is every event of the employee, each
   * once, oldest first; the date filter is then not applied at all.
   */
  lemma LogsWithoutRange(events: seq<ClockEvent>, id: nat, start: Option<string>, end: Option<string>)
    requires !Truthy(start) || !Truthy(end)
    ensures forall i, j | 0 <= i < j < |LogRows(events, id, DateRange(start, end))| ::
      LexLe(LogRows(events, id, DateRange(start, end))[i].timestamp, LogRows(events, id, DateRange(start, end))[j].timestamp)
    ensures forall k | 0 <= k < |events| && events[k].employeeId == id ::
      AsLogRow(events[k]) in LogRows(events, id, DateRange(start, end))
    ensures forall i | 0 <= i < |LogRows(events, id, DateRange(start, end))| :: exists k | 0 <= k < |events| ::
      events[k].employeeId == id && LogRows(events, id, DateRange(start, end))[i] == AsLogRow(events[k])
    ensures |LogRows(events, id, DateRange(start, end))| == |Seqs.Filter(events, LogFilter(id, None))|
  {
    assert DateRange(start, end) == None;
    LogRowsCorrect(events, id, None);
    var rows := LogRows(events, id, None);
    forall i | 0 <= i < |rows| ensures exists k | 0 <= k < |events| :: events[k].employeeId == id && rows[i] == AsLogRow(events[k]) {
      var k :| 0 <= k < |events| && events[k].employeeId == id && InRange(events[k].timestamp, None) && rows[i] == AsLogRow(events[k]);
    }
  }

  /** A character MySQL's reading of an integer text can take: a space, a sign or a digit. */
  predicate IntChar(c: char) { c == ' ' || c == '+' || c == '-' || IsDigit(c) }

  /** A text without its sign, if it has one. */
  function Unsigned(u: string): string
  {
    if u != [] && (u[0] == '+' || u[0] == '-') then u[1..] else u
  }

  /** The part of an integer text after the spaces around it and its sign, if any. */
  function IntDigits(t: string): string
  {
    Unsigned(Trim(t, ' '))
  }

  /** The number a trimmed integer text is stored as. */
  function IntOfTrimmed(u: string): Option<nat>
  {
    var digits := Unsigned(u);
    if digits != [] && IsDigits(digits) && !(u[0] == '-' && DecimalValue(digits) != 0)
    then Some(DecimalValue(digits))
    else None
  }

  /**
   * MySQL in strict mode storing a text into an INT column: spaces around
   * an optionally signed run of digits are skipped and the digits give the
   * number; anything else raises. A negative number is stored, but names
   * no employee, so the foreign key makes the insert raise all the same
   * (None); "-0" is 0.
   */
  function IntColumn(t: string): (r: Option<nat>)
    ensures r.Some? ==> IntDigits(t) != [] && IsDigits(IntDigits(t)) && r.value == DecimalValue(IntDigits(t))
  {
    IntOfTrimmed(Trim(t, ' '))
  }

  /** Spaces around a text that does not start or end with one are skipped. */
  lemma IntColumnPadded(pre: string, u: string, post: string)
    requires forall i | 0 <= i < |pre| :: pre[i] == ' '
    requires forall i | 0 <= i < |post| :: post[i] == ' '
    requires u != [] && Trimmed(u, ' ')
    ensures IntColumn(pre + u + post) == IntOfTrimmed(u)
  {
    TrimPadded(pre, u, post, ' ');
  }

  /** Digits, with spaces around them and an optional plus sign, are stored as their number. */
  lemma IntColumnOfDigits(pre: string, sign: string, digits: string, post: string)
    requires forall i | 0 <= i < |pre| :: pre[i] == ' '
    requires forall i | 0 <= i < |post| :: post[i] == ' '
    requires sign == "" || sign == "+"
    requires digits != [] && IsDigits(digits)
    ensures IntColumn(pre + sign + digits + post) == Some(DecimalValue(digits))
  {
    var u := sign + digits;
    assert u[|u| - 1] == digits[|digits| - 1];
    if sign == "+" {
      assert u[0] == '+' && u[1..] == digits;
    } else {
      assert u == digits && IsDigit(u[0]);
    }
    assert Unsigned(u) == digits;
    assert pre + sign + digits + post == pre + u + post;
    IntColumnPadded(pre, u, post);
  }

  /** A minus sign is accepted, but only a zero stays a natural number. */
  lemma IntColumnNegative(pre: string, digits: string, post: string)
    requires forall i | 0 <= i < |pre| :: pre[i] == ' '
    requires forall i | 0 <= i < |post| :: post[i] == ' '
    requires digits != [] && IsDigits(digits)
    ensures IntColumn(pre + "-" + digits + post) == if DecimalValue(digits) == 0 then Some(0) else None
  {
    var u := "-" + digits;
    assert u[|u| - 1] == digits[|digits| - 1];
    assert u[0] == '-' && u[1..] == digits;
    assert Unsigned(u) == digits;
    assert pre + "-" + digits + post == pre + u + post;
    IntColumnPadded(pre, u, post);
  }

  /** The id printed by PHP for a JSON number is stored as that number. */
  lemma IntColumnOfNat(n: nat)
    ensures IntColumn(NatToString(n)) == Some(n)
  {
    var s := NatToString(n);
    assert IsDigit(s[0]) && IsDigit(s[|s| - 1]);
    TrimProperties(s, ' ');
    assert Unsigned(s) == s;
    DecimalValueOfNatToString(n);
  }

  /** Only spaces, signs and digits are stored: any other character makes the insert raise. */
  lemma IntColumnChars(t: string)
    ensures IntColumn(t).Some? ==> forall i | 0 <= i < |t| :: IntChar(t[i])
  {
    if IntOfTrimmed(Trim(t, ' ')).Some? {
      TrimmedChars(Trim(t, ' '));
      TrimKeeps(t, ' ', IntChar);
    }
  }

  lemma TrimmedChars(u: string)
    requires IntOfTrimmed(u).Some?
    ensures forall i | 0 <= i < |u| :: IntChar(u[i])
  {
    var digits := Unsigned(u);
    if u[0] == '+' || u[0] == '-' {
      forall i | 1 <= i < |u| ensures IntChar(u[i]) {
        assert u[i] == digits[i - 1];
      }
    }
  }

  /**
   * The timestamp text the clock handler starts from (index.php:154-156):
   * the given value when it is not `empty`, else `date('Y-m-d H:i:s')`; an
   * array given reaches `preg_match`, which raises (None).
   */
  function GivenTimestamp(given: Json, now: DateTime): (r: Option<string>)
    ensures r.None? <==> !Empty(given) && (given.JArray? || given.JObject?)
    ensures Empty(given) ==> r == Some(Format(now))
    ensures !Empty(given) && r.Some? ==> r.value == PhpString(given)
  {
    if Empty(given) then Some(Format(now)) else StringArgument(given)
  }

  /**
   * The `foreach … if (password_verify(…)) { …; break; }` scan of the login
   * handlers (index.php:498-503 and 547-552): the first row whose hash the
   * PIN verifies against.
   */
  method FirstVerified(accounts: seq<Account>, pin: string, verify: (string, string) -> bool)
    returns (found: Option<Account>)
    ensures found.Some? ==> exists k | 0 <= k < |accounts| ::
      && accounts[k] == found.value && verify(pin, accounts[k].pinHash)
      && forall j | 0 <= j < k :: !verify(pin, accounts[j].pinHash)
    ensures found.None? <==> forall k | 0 <= k < |accounts| :: !verify(pin, accounts[k].pinHash)
  {
    found := None;
    var i := 0;
    while i < |accounts|
      invariant 0 <= i <= |accounts|
      invariant forall j | 0 <= j < i :: !verify(pin, accounts[j].pinHash)
    {
      if verify(pin, accounts[i].pinHash) {
        found := Some(accounts[i]);
        return;
      }
      i := i + 1;
    }
  }

  /** The test endpoint's answer (index.php:129-134). */
  function HealthInfo(env: Env): (r: Response)
    ensures r.Ok? && r.code == 200 && r.payload.Info?
    ensures r.payload.message == "ClockMate API is running!" && r.payload.version == "1.0.0"
    ensures r.payload.timestamp == Format(env.now) && r.payload.timezone == env.timezone
  {
    Ok(200, Info("ClockMate API is running!", "1.0.0", Format(env.now), env.timezone))
  }

  /** The clock request passes the handler's check of `employeeId` and `type` (index.php:147). */
  predicate ClockRequestValid(body: Json)
  {
    ClockPayloadValid(Field(body, "employeeId"), Field(body, "type"))
  }

  /** The timestamp text of a clock request (index.php:154-156). */
  function ClockTimestamp(body: Json, env: Env): Option<string>
  {
    GivenTimestamp(Field(body, "timestamp"), env.now)
  }

  /** The employee id of a clock request as the INT column stores it (index.php:169). */
  function ClockEmployee(body: Json): Option<nat>
  {
    IntColumn(PhpString(Field(body, "employeeId")))
  }

  /** The signup request has a non-`empty` name, email and PIN (index.php:434-436). */
  predicate SignupFieldsGiven(body: Json)
  {
    !(Empty(Field(body, "name")) || Empty(Field(body, "email")) || Empty(Field(body, "pin")))
  }

  /** The database behind the API: the three tables and the two AUTO_INCREMENT counters. */
  class Store {
    var employees: seq<Employee>
    var pins: map<nat, string>
    var events: seq<ClockEvent>
    var nextEmployeeId: nat
    var nextEventId: nat

    ghost predicate Valid()
      reads this
    {
      Consistent(employees, pins, events, nextEmployeeId, nextEventId)
    }

    constructor (emps: seq<Employee>, pinTable: map<nat, string>, eventTable: seq<ClockEvent>,
                 nextEmployee: nat, nextEvent: nat)
      requires Consistent(emps, pinTable, eventTable, nextEmployee, nextEvent)
      ensures Valid()
      ensures employees == emps && pins == pinTable && events == eventTable
      ensures nextEmployeeId == nextEmployee && nextEventId == nextEvent
    {
      employees := emps;
      pins := pinTable;
      events := eventTable;
      nextEmployeeId := nextEmployee;
      nextEventId := nextEvent;
    }

    // ------------------------------------------------------------ clock

    /**
     * POST clock/event (index.php:144-188): validates the payload, settles
     * the timestamp, then inserts the event and reads it back.
     */
    method RecordClockEvent(body: Json, env: Env) returns (r: Response)
      requires Valid()
      modifies this
      ensures Valid()
      ensures employees == old(employees) && pins == old(pins) && nextEmployeeId == old(nextEmployeeId)
      ensures !ClockRequestValid(body) ==>
        r == Err(400, "Employee ID and valid type (in/out) are required.") && unchanged(this)
      ensures ClockRequestValid(body) && ClockTimestamp(body, env).None? ==>
        r == Fatal && unchanged(this)
      ensures r.Ok? ==>
        && r.code == 201 && r.payload.Recorded? && r.payload.message == "Clock event recorded successfully."
        && ClockRequestValid(body)
        && ClockTimestamp(body, env).Some?
        && r.payload.record.id == old(nextEventId)
        && Some(r.payload.record.employeeId) == ClockEmployee(body)
        && Some(r.payload.record.eventType) == EventTypeOf(Field(body, "type"))
        && r.payload.record.timestamp
           == ConvertToMysqlDatetime(ClockTimestamp(body, env).value, env.parse, env.now)
        && events == old(events) + [r.payload.record] && nextEventId == old(nextEventId) + 1
      ensures r.Ok? <==>
        && ClockRequestValid(body)
        && ClockTimestamp(body, env).Some?
        && ClockEmployee(body).Some?
        && old(HasEmployee(employees, ClockEmployee(body).value))
        && !Fails(env, 0) && !Fails(env, 1)
      ensures ClockRequestValid(body) && ClockTimestamp(body, env).Some? && !r.Ok?
        ==> r == Failure("Failed to record clock event: ", env)
      ensures !r.Ok? && !(ClockEmployee(body).Some?
                          && old(HasEmployee(employees, ClockEmployee(body).value))
                          && !Fails(env, 0))
        ==> unchanged(this)
      ensures events != old(events) ==> r.Ok? || (Fails(env, 1) && r == Failure("Failed to record clock event: ", env))
      ensures events == old(events) || (|events| == |old(events)| + 1 && nextEventId == old(nextEventId) + 1)
      ensures && ClockRequestValid(body)
              && ClockTimestamp(body, env).Some?
              && ClockEmployee(body).Some?
              && old(HasEmployee(employees, ClockEmployee(body).value))
              && !Fails(env, 0) && Fails(env, 1)
        ==>
        && events == old(events) + [ClockEvent(old(nextEventId), ClockEmployee(body).value,
                                               EventTypeOf(Field(body, "type")).value,
                                               ConvertToMysqlDatetime(ClockTimestamp(body, env).value, env.parse, env.now))]
        && nextEventId == old(nextEventId) + 1
    {
      if !ClockRequestValid(body) {
        return Err(400, "Employee ID and valid type (in/out) are required.");
      }
      var given := ClockTimestamp(body, env);
      if given.None? {
        return Fatal;
      }
      var timestamp := ConvertToMysqlDatetime(given.value, env.parse, env.now);
      r := InsertEvent(ClockEmployee(body), EventTypeOf(Field(body, "type")).value, timestamp, env);
    }

    /**
     * The insert (statement 0) and the read-back (statement 1) of a clock
     * event; `employeeId` is None when the bound text is not a number the
     * INT column takes. The insert fails for it and for an unknown employee
     * (the foreign key); a failed read-back leaves the inserted row in place.
     */
    method InsertEvent(employeeId: Option<nat>, eventType: string, timestamp: string, env: Env) returns (r: Response)
      requires Valid() && IsEventType(eventType)
      modifies this
      ensures Valid()
      ensures employees == old(employees) && pins == old(pins) && nextEmployeeId == old(nextEmployeeId)
      ensures r.Ok? ==>
        && employeeId.Some?
        && r == Ok(201, Recorded("Clock event recorded successfully.", ClockEvent(old(nextEventId), employeeId.value, eventType, timestamp)))
        && events == old(events) + [r.payload.record] && nextEventId == old(nextEventId) + 1
      ensures r.Ok? <==> employeeId.Some? && old(HasEmployee(employees, employeeId.value)) && !Fails(env, 0) && !Fails(env, 1)
      ensures !r.Ok? ==> r == Failure("Failed to record clock event: ", env)
      ensures !r.Ok? && !(employeeId.Some? && old(HasEmployee(employees, employeeId.value)) && !Fails(env, 0)) ==> unchanged(this)
      ensures events != old(events) ==> r.Ok? || Fails(env, 1)
      ensures events == old(events) || (|events| == |old(events)| + 1 && nextEventId == old(nextEventId) + 1)
      ensures employeeId.Some? && old(HasEmployee(employees, employeeId.value)) && !Fails(env, 0) && Fails(env, 1) ==>
        && events == old(events) + [ClockEvent(old(nextEventId), employeeId.value, eventType, timestamp)]
        && nextEventId == old(nextEventId) + 1
    {
      if Fails(env, 0) || employeeId.None? || !HasEmployee(employees, employeeId.value) {
        return Failure("Failed to record clock event: ", env);
      }
      var record := ClockEvent(nextEventId, employeeId.value, eventType, timestamp);
      AddEventKeepsConsistent(employees, pins, events, nextEmployeeId, nextEventId,
                              record.employeeId, record.eventType, record.timestamp);
      events := events + [record];
      nextEventId := nextEventId + 1;
      if Fails(env, 1) {
        return Failure("Failed to record clock event: ", env);
      }
      r := Ok(201, Recorded("Clock event recorded successfully.", record));
    }

    /**
     * GET clock/logs/{id} (index.php:198-234): the employee's events, in
     * the date range when both bounds are given, oldest first. An id with
     * no employee gets an empty list.
     */
    method ClockLogs(id: nat, start: Option<string>, end: Option<string>, env: Env) returns (r: Response)
      ensures Fails(env, 0) ==> r == Failure("Failed to fetch logs: ", env)
      ensures !Fails(env, 0) ==> r.Ok? && r.code == 200 && r.payload.Logs?
      ensures r.Ok? ==> r.payload.logs == LogRows(events, id, DateRange(start, end))
      ensures r.Ok? ==> |r.payload.logs| == |Seqs.Filter(events, LogFilter(id, DateRange(start, end)))|
      ensures r.Ok? ==>
        && (forall i, j | 0 <= i < j < |r.payload.logs| :: LexLe(r.payload.logs[i].timestamp, r.payload.logs[j].timestamp))
        && (forall k | 0 <= k < |events| && events[k].employeeId == id && InRange(events[k].timestamp, DateRange(start, end)) ::
              AsLogRow(events[k]) in r.payload.logs)
        && (forall i | 0 <= i < |r.payload.logs| :: exists k | 0 <= k < |events| ::
              && events[k].employeeId == id && InRange(events[k].timestamp, DateRange(start, end))
              && r.payload.logs[i] == AsLogRow(events[k]))
    {
      if Fails(env, 0) {
        return Failure("Failed to fetch logs: ", env);
      }
      var range := DateRange(start, end);
      LogRowsCorrect(events, id, range);
      r := Ok(200, Logs(LogRows(events, id, range)));
    }

    // ------------------------------------------------------------ admin

    /** GET admin/pending (index.php:245-256): unapproved staff, oldest first. */
    method PendingApprovals(env: Env) returns (r: Response)
      ensures Fails(env, 0) ==> r == Failure("Failed to fetch pending approvals: ", env)
      ensures !Fails(env, 0) ==> r.Ok? && r.code == 200 && r.payload.Pending?
      ensures r.Ok? ==> r.payload.pending == PendingRows(employees)
      ensures r.Ok? ==> |r.payload.pending| == |Seqs.Filter(employees, IsPending)|
      ensures r.Ok? ==>
        && (forall i, j | 0 <= i < j < |r.payload.pending| ::
              LexLe(r.payload.pending[i].createdAt, r.payload.pending[j].createdAt))
        && (forall k | 0 <= k < |employees| && IsPending(employees[k]) :: AsPendingRow(employees[k]) in r.payload.pending)
        && (forall i | 0 <= i < |r.payload.pending| :: exists k | 0 <= k < |employees| ::
              IsPending(employees[k]) && r.payload.pending[i] == AsPendingRow(employees[k]))
    {
      if Fails(env, 0) {
        return Failure("Failed to fetch pending approvals: ", env);
      }
      PendingRowsCorrect(employees);
      r := Ok(200, Pending(PendingRows(employees)));
    }

    /** GET admin/employees (index.php:265-276): every staff member, newest first. */
    method AllEmployees(env: Env) returns (r: Response)
      ensures Fails(env, 0) ==> r == Failure("Failed to fetch employees: ", env)
      ensures !Fails(env, 0) ==> r.Ok? && r.code == 200 && r.payload.Staff?
      ensures r.Ok? ==> r.payload.staff == StaffRows(employees)
      ensures r.Ok? ==> |r.payload.staff| == |Seqs.Filter(employees, IsStaff)|
      ensures r.Ok? ==>
        && (forall i, j | 0 <= i < j < |r.payload.staff| :: LexLe(r.payload.staff[j].createdAt, r.payload.staff[i].createdAt))
        && (forall k | 0 <= k < |employees| && IsStaff(employees[k]) :: employees[k] in r.payload.staff)
        && (forall i | 0 <= i < |r.payload.staff| :: r.payload.staff[i] in employees && IsStaff(r.payload.staff[i]))
    {
      if Fails(env, 0) {
        return Failure("Failed to fetch employees: ", env);
      }
      var rows := StaffRows(employees);
      assert forall i, j | 0 <= i < j < |rows| :: Seqs.Before(rows[i], rows[j], CreatedAt, true);
      r := Ok(200, Staff(rows));
    }

    /**
     * GET admin/stats (index.php:285-322): four counting queries (statements
     * 0 to 3) over the tables, "today" being MySQL's `CURDATE()`.
     */
    method DashboardStats(env: Env) returns (r: Response)
      requires Valid()
      ensures Fails(env, 0) || Fails(env, 1) || Fails(env, 2) || Fails(env, 3) ==> r == Failure("Failed to fetch stats: ", env)
      ensures !(Fails(env, 0) || Fails(env, 1) || Fails(env, 2) || Fails(env, 3)) ==>
        r == Ok(200, Dashboard(StatsOf(employees, events, DateText(env.dbClock))))
      ensures r.Ok? ==>
        && r.payload.stats.totalEmployees + r.payload.stats.pendingApprovals == |Seqs.Filter(employees, IsStaff)|
        && r.payload.stats.activeEmployees <= |Seqs.Filter(events, OnDay(DateText(env.dbClock)))|
        && r.payload.stats.todayClockIns <= |Seqs.Filter(events, OnDay(DateText(env.dbClock)))|
    {
      if Fails(env, 0) || Fails(env, 1) || Fails(env, 2) || Fails(env, 3) {
        return Failure("Failed to fetch stats: ", env);
      }
      var today := DateText(env.dbClock);
      StatsBounds(employees, events, today);
      r := Ok(200, Dashboard(StatsOf(employees, events, today)));
    }

    /**
     * POST admin/approve/{id} (index.php:330-343): sets `is_approved` for
     * an unapproved employee with the id, of any role; 404 when there is none.
     */
    method Approve(id: nat, env: Env) returns (r: Response)
      requires Valid()
      modifies this
      ensures Valid()
      ensures pins == old(pins) && events == old(events)
      ensures nextEmployeeId == old(nextEmployeeId) && nextEventId == old(nextEventId)
      ensures Fails(env, 0) ==> r == Failure("Failed to approve employee: ", env) && unchanged(this)
      ensures !Fails(env, 0) ==> employees == SetApproved(old(employees), id, true)
      ensures !Fails(env, 0) ==> r == if old(HasPending(employees, id))
                                    then Ok(200, Message("Employee approved successfully."))
                                    else Err(404, "Employee not found or already approved.")
    {
      if Fails(env, 0) {
        return Failure("Failed to approve employee: ", env);
      }
      PendingCount(employees, id);
      var changed := PendingCountWith(employees, id);
      SetApprovedKeepsConsistent(employees, pins, events, nextEmployeeId, nextEventId, id, true);
      employees := SetApproved(employees, id, true);
      if changed > 0 {
        r := Ok(200, Message("Employee approved successfully."));
      } else {
        r := Err(404, "Employee not found or already approved.");
      }
    }

    /**
     * POST admin/reject/{id} (index.php:351-364): deletes an unapproved
     * employee with the id, and with it (by the cascade) its PIN and its
     * events; 404 when there is none, and then nothing changes.
     */
    method Reject(id: nat, env: Env) returns (r: Response)
      requires Valid()
      modifies this
      ensures Valid()
      ensures nextEmployeeId == old(nextEmployeeId) && nextEventId == old(nextEventId)
      ensures Fails(env, 0) ==> r == Failure("Failed to reject employee: ", env) && unchanged(this)
      ensures !Fails(env, 0) && old(HasPending(employees, id)) ==>
        && r == Ok(200, Message("Employee rejected and removed."))
        && employees == Remove(old(employees), id) && |employees| < |old(employees)|
        && pins == old(pins) - {id} && events == CascadeEvents(old(events), id)
      ensures !Fails(env, 0) && !old(HasPending(employees, id)) ==>
        r == Err(404, "Employee not found or already approved.") && unchanged(this)
    {
      if Fails(env, 0) {
        return Failure("Failed to reject employee: ", env);
      }
      PendingCount(employees, id);
      RemoveCount(employees, id);
      if PendingCountWith(employees, id) > 0 {
        RemoveKeepsConsistent(employees, pins, events, nextEmployeeId, nextEventId, id);
        employees := Remove(employees, id);
        pins := pins - {id};
        events := CascadeEvents(events, id);
        r := Ok(200, Message("Employee rejected and removed."));
      } else {
        r := Err(404, "Employee not found or already approved.");
      }
    }

    /**
     * POST admin/reset-pin/{id} (index.php:372-391): checks the new PIN,
     * hashes it and stores the hash; 404 when no row changed.
     */
    method ResetPin(id: nat, body: Json, env: Env) returns (r: Response)
      requires Valid()
      modifies this
      ensures Valid()
      ensures employees == old(employees) && events == old(events)
      ensures nextEmployeeId == old(nextEmployeeId) && nextEventId == old(nextEventId)
      ensures Empty(Field(body, "newPin")) || PinFormat(Field(body, "newPin"), 6).Rejected? ==>
        r == Err(400, "New PIN must be exactly 6 digits.") && unchanged(this)
      ensures !Empty(Field(body, "newPin")) && PinFormat(Field(body, "newPin"), 6).TypeError? ==> r == Fatal && unchanged(this)
      ensures !Empty(Field(body, "newPin")) && PinFormat(Field(body, "newPin"), 6).Accepted? ==>
        var hash := env.hash(PinFormat(Field(body, "newPin"), 6).value);
        && (Fails(env, 0) ==> r == Failure("Failed to reset PIN: ", env) && unchanged(this))
        && (!Fails(env, 0) ==>
              pins == SetPin(old(pins), id, hash) && r == if PinChanged(old(pins), id, hash) then Ok(200, Message("PIN reset successfully."))
                      else Err(404, "Employee not found."))
    {
      var newPin := Field(body, "newPin");
      if Empty(newPin) {
        return Err(400, "New PIN must be exactly 6 digits.");
      }
      match PinFormat(newPin, 6)
      case TypeError =>
        return Fatal;
      case Rejected =>
        return Err(400, "New PIN must be exactly 6 digits.");
      case Accepted(text) =>
        var hash := env.hash(text);
        if Fails(env, 0) {
          return Failure("Failed to reset PIN: ", env);
        }
        var changed := PinChanged(pins, id, hash);
        SetPinKeepsConsistent(employees, pins, events, nextEmployeeId, nextEventId, id, hash);
        pins := SetPin(pins, id, hash);
        if changed {
          r := Ok(200, Message("PIN reset successfully."));
        } else {
          r := Err(404, "Employee not found.");
        }
    }

    /**
     * POST admin/deactivate/{id} and admin/reactivate/{id} (index.php:395-424):
     * set `is_approved` for the id, and report success whether or not a row
     * had it.
     */
    method SetActive(id: nat, active: bool, env: Env) returns (r: Response)
      requires Valid()
      modifies this
      ensures Valid()
      ensures pins == old(pins) && events == old(events)
      ensures nextEmployeeId == old(nextEmployeeId) && nextEventId == old(nextEventId)
      ensures Fails(env, 0) ==>
        unchanged(this) && r == Failure(if active then "Failed to reactivate: " else "Failed to deactivate: ", env)
      ensures !Fails(env, 0) ==>
        employees == SetApproved(old(employees), id, active) && r == Ok(200, Message(if active then "Employee reactivated." else "Employee deactivated."))
    {
      if Fails(env, 0) {
        return Failure(if active then "Failed to reactivate: " else "Failed to deactivate: ", env);
      }
      SetApprovedKeepsConsistent(employees, pins, events, nextEmployeeId, nextEventId, id, active);
      employees := SetApproved(employees, id, active);
      r := Ok(200, Message(if active then "Employee reactivated." else "Employee deactivated."));
    }

    // ------------------------------------------------------------- auth

    /**
     * POST auth/signup (index.php:432-469): checks the fields and the PIN,
     * then in one transaction looks the email up (statement 0), inserts the
     * employee (1) and its PIN hash (2) and commits (3). A failure rolls the
     * tables back; an employee id once handed out is not given back.
     */
    method Signup(body: Json, env: Env) returns (r: Response)
      requires Valid()
      modifies this
      ensures Valid()
      ensures events == old(events) && nextEventId == old(nextEventId)
      ensures !SignupFieldsGiven(body) ==>
        r == Err(400, "Name, email, and PIN are required.") && unchanged(this)
      ensures SignupFieldsGiven(body) ==>
        && (PinFormat(Field(body, "pin"), 6).TypeError? ==> r == Fatal && unchanged(this))
        && (PinFormat(Field(body, "pin"), 6).Rejected? ==> r == Err(400, "PIN must be exactly 6 digits.") && unchanged(this))
      ensures SignupFieldsGiven(body)
              && PinFormat(Field(body, "pin"), 6).Accepted? && Fails(env, 0)
        ==> r == Failure("Failed to create account: ", env) && unchanged(this)
      ensures SignupFieldsGiven(body)
              && PinFormat(Field(body, "pin"), 6).Accepted? && !Fails(env, 0)
              && old(EmailTaken(employees, PhpString(Field(body, "email"))))
        ==> r == Err(409, "Email already in use.") && unchanged(this)
      ensures r == Err(409, "Email already in use.") ==>
        old(EmailTaken(employees, PhpString(Field(body, "email")))) && unchanged(this)
      ensures SignupFieldsGiven(body)
              && PinFormat(Field(body, "pin"), 6).Accepted? && !Fails(env, 0)
              && !old(EmailTaken(employees, PhpString(Field(body, "email")))) && !r.Ok?
        ==> r == Failure("Failed to create account: ", env)
      ensures !r.Ok? ==> employees == old(employees) && pins == old(pins)
      ensures !r.Ok? ==> nextEmployeeId == old(nextEmployeeId) || (nextEmployeeId == old(nextEmployeeId) + 1 && (Fails(env, 2) || Fails(env, 3)))
      ensures r.Ok? ==>
        && r == Ok(201, Message("Account created! Awaiting admin approval."))
        && PinFormat(Field(body, "pin"), 6).Accepted?
        && !old(EmailTaken(employees, PhpString(Field(body, "email"))))
        && employees == old(employees)
           + [NewEmployee(old(nextEmployeeId), PhpString(Field(body, "name")), PhpString(Field(body, "email")), Format(env.dbClock))]
        && pins == old(pins)[old(nextEmployeeId) := env.hash(PinFormat(Field(body, "pin"), 6).value)]
        && nextEmployeeId == old(nextEmployeeId) + 1
      ensures r.Ok? <==>
        && SignupFieldsGiven(body)
        && PinFormat(Field(body, "pin"), 6).Accepted?
        && !old(EmailTaken(employees, PhpString(Field(body, "email"))))
        && !Fails(env, 0) && !Fails(env, 1) && !Fails(env, 2) && !Fails(env, 3)
    {
      var name := Field(body, "name");
      var email := Field(body, "email");
      var pin := Field(body, "pin");
      if Empty(name) || Empty(email) || Empty(pin) {
        return Err(400, "Name, email, and PIN are required.");
      }
      match PinFormat(pin, 6)
      case TypeError =>
        return Fatal;
      case Rejected =>
        return Err(400, "PIN must be exactly 6 digits.");
      case Accepted(text) =>
        r := Register(PhpString(name), PhpString(email), text, env);
    }

    /**
     * The signup transaction (index.php:442-469) for checked fields: the
     * email lookup (statement 0), the employee insert (1), the PIN insert
     * (2) and the commit (3). The employee insert takes an id from the
     * counter, which the rollback of a later failure does not return.
     */
    method Register(name: string, email: string, pin: string, env: Env) returns (r: Response)
      requires Valid()
      modifies this
      ensures Valid()
      ensures events == old(events) && nextEventId == old(nextEventId)
      ensures Fails(env, 0) ==> r == Failure("Failed to create account: ", env) && unchanged(this)
      ensures !Fails(env, 0) && old(EmailTaken(employees, email)) ==> r == Err(409, "Email already in use.") && unchanged(this)
      ensures r == Err(409, "Email already in use.") ==> old(EmailTaken(employees, email)) && unchanged(this)
      ensures !r.Ok? ==> employees == old(employees) && pins == old(pins)
      ensures !Fails(env, 0) && !old(EmailTaken(employees, email)) && !r.Ok? ==> r == Failure("Failed to create account: ", env)
      ensures !r.Ok? ==> nextEmployeeId == old(nextEmployeeId) || (nextEmployeeId == old(nextEmployeeId) + 1 && (Fails(env, 2) || Fails(env, 3)))
      ensures r.Ok? ==>
        && r == Ok(201, Message("Account created! Awaiting admin approval."))
        && employees == old(employees) + [NewEmployee(old(nextEmployeeId), name, email, Format(env.dbClock))]
        && pins == old(pins)[old(nextEmployeeId) := env.hash(pin)]
        && nextEmployeeId == old(nextEmployeeId) + 1
      ensures r.Ok? <==> !old(EmailTaken(employees, email)) && !Fails(env, 0) && !Fails(env, 1) && !Fails(env, 2) && !Fails(env, 3)
    {
      if Fails(env, 0) {
        return Failure("Failed to create account: ", env);
      }
      if EmailTaken(employees, email) {
        return Err(409, "Email already in use.");
      }
      if Fails(env, 1) {
        return Failure("Failed to create account: ", env);
      }
      var id := nextEmployeeId;
      nextEmployeeId := nextEmployeeId + 1;
      var hash := env.hash(pin);
      if Fails(env, 2) || Fails(env, 3) {
        return Failure("Failed to create account: ", env);
      }
      var e := NewEmployee(id, name, email, Format(env.dbClock));
      SignupKeepsConsistent(employees, pins, events, id, nextEventId, e.name, e.email, e.createdAt, hash);
      employees := employees + [e];
      pins := pins[id := hash];
      r := Ok(201, Message("Account created! Awaiting admin approval."));
    }

    /**
     * POST auth/login (role "employee", 6 digits) and auth/pin-login (role
     * "admin", 8 digits) (index.php:476-518 and 525-567): the PIN is checked
     * against the hash of every approved account of the role, and the first
     * that verifies logs in. Accounts are identified by PIN alone.
     */
    method Authenticate(body: Json, role: string, digits: nat, env: Env) returns (r: Response)
      requires digits > 0
      ensures Empty(Field(body, "pin")) ==> r == Err(400, "PIN is required.")
      ensures !Empty(Field(body, "pin")) && PinFormat(Field(body, "pin"), digits).TypeError? ==> r == Fatal
      ensures !Empty(Field(body, "pin")) && PinFormat(Field(body, "pin"), digits).Rejected? ==> r == Err(400, "Invalid PIN format.")
      ensures !Empty(Field(body, "pin")) && PinFormat(Field(body, "pin"), digits).Accepted? && Fails(env, 0) ==>
        r == Failure("Login failed: ", env)
      ensures !Empty(Field(body, "pin")) && PinFormat(Field(body, "pin"), digits).Accepted? && !Fails(env, 0) ==>
        r.Ok? || r == Err(401, "Invalid PIN or account not approved.")
      ensures r.Ok? ==> r.code == 200 && r.payload.User? && exists e | e in employees ::
        && CanLogIn(e, pins, role)
        && env.verify(PinFormat(Field(body, "pin"), digits).value, pins[e.id])
        && r.payload == User(e.id, e.name, e.email, e.role)
      ensures r.Ok? ==> exists k | 0 <= k < |Accounts(employees, pins, role)| ::
        && env.verify(PinFormat(Field(body, "pin"), digits).value, Accounts(employees, pins, role)[k].pinHash)
        && (forall j | 0 <= j < k ::
              !env.verify(PinFormat(Field(body, "pin"), digits).value, Accounts(employees, pins, role)[j].pinHash))
        && r.payload == User(Accounts(employees, pins, role)[k].id, Accounts(employees, pins, role)[k].name,
                             Accounts(employees, pins, role)[k].email, Accounts(employees, pins, role)[k].role)
      ensures r == Err(401, "Invalid PIN or account not approved.") <==>
        && !Empty(Field(body, "pin")) && PinFormat(Field(body, "pin"), digits).Accepted? && !Fails(env, 0)
        && forall e | e in employees && CanLogIn(e, pins, role) ::
             !env.verify(PinFormat(Field(body, "pin"), digits).value, pins[e.id])
    {
      var pin := Field(body, "pin");
      if Empty(pin) {
        return Err(400, "PIN is required.");
      }
      match PinFormat(pin, digits)
      case TypeError =>
        return Fatal;
      case Rejected =>
        return Err(400, "Invalid PIN format.");
      case Accepted(text) =>
        if Fails(env, 0) {
          return Failure("Login failed: ", env);
        }
        var accounts := Accounts(employees, pins, role);
        var found := FirstVerified(accounts, text, env.verify);
        match found
        case Some(a) =>
          var k :| 0 <= k < |accounts| && accounts[k] == a && env.verify(text, accounts[k].pinHash);
          assert a in accounts;
          r := Ok(200, User(a.id, a.name, a.email, a.role));
        case None =>
          forall e | e in employees && CanLogIn(e, pins, role) ensures !env.verify(text, pins[e.id]) {
            assert AccountOf(e, pins) in accounts;
          }
          r := Err(401, "Invalid PIN or account not approved.");
    }

    /**
     * The life of an account (index.php:428-519): a signup with a fresh
     * email, the admin approving the new id, and a login with the same PIN
     * succeed one after the other when the storage does not fail and the
     * hash stored verifies the PIN it was made from.
     */
    method Onboard(body: Json, env: Env) returns (signup: Response, approval: Response, login: Response)
      requires Valid()
      requires env.storage.failing.None?
      requires !Empty(Field(body, "name")) && !Empty(Field(body, "email")) && !Empty(Field(body, "pin"))
      requires PinFormat(Field(body, "pin"), 6).Accepted?
      requires !EmailTaken(employees, PhpString(Field(body, "email")))
      requires env.verify(PinFormat(Field(body, "pin"), 6).value, env.hash(PinFormat(Field(body, "pin"), 6).value))
      modifies this
      ensures Valid()
      ensures signup == Ok(201, Message("Account created! Awaiting admin approval."))
      ensures approval == Ok(200, Message("Employee approved successfully."))
      ensures login.Ok? && login.code == 200 && login.payload.User?
      ensures exists i | 0 <= i < |employees| :: employees[i].id == old(nextEmployeeId) && CanLogIn(employees[i], pins, "employee")
    {
      var id := nextEmployeeId;
      var n := |employees|;
      signup := Signup(body, env);
      ghost var joined := employees;
      assert joined[n].id == id && !joined[n].approved;
      ApproveEffect(joined, id);
      approval := Approve(id, env);
      assert employees[n] == joined[n].(approved := true);
      assert CanLogIn(employees[n], pins, "employee") && employees[n] in employees;
      login := Authenticate(body, "employee", 6, env);
    }

    // ----------------------------------------------------------- export

    /** GET admin/export (index.php:577-602): every event with its employee, newest first. */
    method ExportAll(env: Env) returns (r: Response)
      requires Valid()
      ensures Fails(env, 0) ==> r == Failure("Export failed: ", env)
      ensures !Fails(env, 0) && events == [] ==> r == Err(404, "No clock events to export.")
      ensures !Fails(env, 0) && events != [] ==>
        && r.Csv? && r.filename == "clockmate_export_" + CompactFormat(env.now) + ".csv"
        && r.header == ExportHeader && r.rows == ExportRows(employees, events, None) && r.rows != []
    {
      if Fails(env, 0) {
        return Failure("Export failed: ", env);
      }
      var rows := ExportRows(employees, events, None);
      ExportEmptyIff(employees, events, None);
      if rows == [] {
        return Err(404, "No clock events to export.");
      }
      r := Csv("clockmate_export_" + CompactFormat(env.now) + ".csv", ExportHeader, rows);
    }

    /**
     * GET admin/export-employee/{id} (index.php:609-641): one employee's
     * events, newest first, in a file named after the employee with spaces
     * made underscores.
     */
    method ExportEmployee(id: nat, env: Env) returns (r: Response)
      requires Valid()
      ensures Fails(env, 0) ==> r == Failure("Export failed: ", env)
      ensures !Fails(env, 0) && (forall i | 0 <= i < |events| :: events[i].employeeId != id) ==>
        r == Err(404, "No clock events found for this employee.")
      ensures !Fails(env, 0) && (exists i | 0 <= i < |events| :: events[i].employeeId == id) ==>
        && r.Csv? && FindEmployee(employees, id).Some?
        && r.filename == ReplaceChar(FindEmployee(employees, id).value.name, ' ', '_') + "_logs_" + CompactFormat(env.now) + ".csv"
        && r.header == ExportHeader && r.rows == ExportRows(employees, events, Some(id)) && r.rows != []
    {
      if Fails(env, 0) {
        return Failure("Export failed: ", env);
      }
      var rows := ExportRows(employees, events, Some(id));
      ExportEmptyIff(employees, events, Some(id));
      if rows == [] {
        return Err(404, "No clock events found for this employee.");
      }
      var i :| 0 <= i < |events| && events[i].employeeId == id;
      var e := FindEmployee(employees, id).value;
      ExportNames(employees, events, e);
      r := Csv(ReplaceChar(rows[0].name, ' ', '_') + "_logs_" + CompactFormat(env.now) + ".csv", ExportHeader, rows);
    }

    // ---------------------------------------------------------- request

    /**
     * One request through index.php: the preflight answer, the connection
     * (index.php:100-104), the route and the handler it names.
     */
    method Handle(req: Request, env: Env) returns (r: Response)
      requires Valid()
      modifies this
      ensures Valid()
      ensures req.verb == "OPTIONS" ==> r == Preflight && unchanged(this)
      ensures req.verb != "OPTIONS" && !env.storage.reachable ==>
        r == Err(500, "Database connection failed: " + env.storage.message) && unchanged(this)
      ensures req.verb != "OPTIONS" && env.storage.reachable && RouteOf(req.path) in HealthRoutes ==>
        r == HealthInfo(env) && unchanged(this)
      ensures req.verb != "OPTIONS" && env.storage.reachable ==>
        match Dispatch(req.verb, RouteOf(req.path))
        case Health => r == HealthInfo(env) && unchanged(this)
        case NotFound => r == Err(404, "Endpoint not found: " + RouteOf(req.path)) && unchanged(this)
        case MethodNotAllowed => r == Err(405, "Method not allowed") && unchanged(this)
        case Call(endpoint, _) => IsQuery(endpoint) ==> unchanged(this)
    {
      if req.verb == "OPTIONS" {
        return Preflight;
      }
      if !env.storage.reachable {
        return Err(500, "Database connection failed: " + env.storage.message);
      }
      var parts := Split(Trim(req.path, '/'), '/');
      var rest := StripBasePath(parts);
      var route := Join(rest, '/');
      match Dispatch(req.verb, route)
      case Health =>
        r := HealthInfo(env);
      case NotFound =>
        r := Err(404, "Endpoint not found: " + route);
      case MethodNotAllowed =>
        r := Err(405, "Method not allowed");
      case Call(endpoint, id) =>
        DispatchId(req.verb, route);
        r := Serve(endpoint, id, req, env);
    }

    /** The handler an endpoint names. */
    method Serve(endpoint: Endpoint, id: Option<nat>, req: Request, env: Env) returns (r: Response)
      requires Valid()
      requires id.Some? <==> TakesId(endpoint)
      modifies this
      ensures Valid()
      ensures IsQuery(endpoint) ==> unchanged(this)
    {
      if IsQuery(endpoint) {
        r := Query(endpoint, id, req, env);
      } else {
        r := Command(endpoint, id, req, env);
      }
    }

    /**
     * The read-only half of `Serve`: the GET endpoints. Having no
     * `modifies` clause, it leaves every table as it was.
     */
    method Query(endpoint: Endpoint, id: Option<nat>, req: Request, env: Env) returns (r: Response)
      requires Valid()
      requires IsQuery(endpoint) && (id.Some? <==> TakesId(endpoint))
    {
      match endpoint
      case ClockLogs => r := ClockLogs(id.value, req.start, req.end, env);
      case PendingApprovals => r := PendingApprovals(env);
      case AllEmployees => r := AllEmployees(env);
      case DashboardStats => r := DashboardStats(env);
      case ExportAll => r := ExportAll(env);
      case ExportEmployee => r := ExportEmployee(id.value, env);
    }

    /** The handlers that write. */
    method Command(endpoint: Endpoint, id: Option<nat>, req: Request, env: Env) returns (r: Response)
      requires Valid()
      requires !IsQuery(endpoint) && (id.Some? <==> TakesId(endpoint))
      modifies this
      ensures Valid()
    {
      match endpoint
      case RecordClockEvent => r := RecordClockEvent(req.body, env);
      case ApproveEmployee => r := Approve(id.value, env);
      case RejectEmployee => r := Reject(id.value, env);
      case ResetPin => r := ResetPin(id.value, req.body, env);
      case DeactivateEmployee => r := SetActive(id.value, false, env);
      case ReactivateEmployee => r := SetActive(id.value, true, env);
      case Signup => r := Signup(req.body, env);
      case Login => r := Authenticate(req.body, "employee", 6, env);
      case PinLogin => r := Authenticate(req.body, "admin", 8, env);
    }
  }
}
