/**
 * The three tables behind the API (`employees`, `pins`, `clock_events`) and
 * what each statement of index.php does to them or reads from them. The
 * schema is not part of the repository; the model takes the one the
 * statements imply: `pins` keyed by `employee_id`, foreign keys from `pins`
 * and `clock_events` to `employees` that refuse unknown employees and
 * cascade on delete, ids from AUTO_INCREMENT counters.
 */
module Tables {
  import opened Text
  import opened Wrappers
  import opened Seqs
  import opened DateTimes

  /** A row of `employees`; `approved` is `is_approved`. */
  datatype Employee = Employee(id: nat, name: string, email: string, role: string, approved: bool, createdAt: string)

  /** A row of `clock_events`. */
  datatype ClockEvent = ClockEvent(id: nat, employeeId: nat, eventType: string, timestamp: string)

  /** `SELECT id, event_type as type, timestamp` (index.php:206). */
  datatype LogRow = LogRow(id: nat, eventType: string, timestamp: string)

  /** `SELECT id, name, email, created_at` (index.php:247). */
  datatype PendingRow = PendingRow(id: nat, name: string, email: string, createdAt: string)

  /** `SELECT e.id, e.name, e.email, e.role, p.pin_hash` (index.php:488 and 537). */
  datatype Account = Account(id: nat, name: string, email: string, role: string, pinHash: string)

  /** `SELECT e.name, e.email, ce.event_type, ce.timestamp` (index.php:579 and 613). */
  datatype ExportRow = ExportRow(name: string, email: string, eventType: string, timestamp: string)

  predicate HasEmployee(emps: seq<Employee>, id: nat)
  {
    exists i | 0 <= i < |emps| :: emps[i].id == id
  }

  function EmployeeId(e: Employee): nat { e.id }
  function EmployeeEmail(e: Employee): string { e.email }
  function EventId(ev: ClockEvent): nat { ev.id }

  /**
   * What the database keeps true: unique employee ids and emails, unique
   * event ids, every id below its AUTO_INCREMENT counter, and every PIN and
   * every event belonging to an existing employee.
   */
  predicate Consistent(emps: seq<Employee>, pins: map<nat, string>, events: seq<ClockEvent>,
                       nextEmployee: nat, nextEvent: nat)
  {
    && KeysUnique(emps, EmployeeId) && KeysUnique(emps, EmployeeEmail)
    && (forall i | 0 <= i < |emps| :: emps[i].id < nextEmployee)
    && (forall k | k in pins :: HasEmployee(emps, k))
    && KeysUnique(events, EventId)
    && (forall i | 0 <= i < |events| :: events[i].id < nextEvent && HasEmployee(emps, events[i].employeeId))
  }

  /** The first employee with an id: the row `WHERE id = ?` finds. */
  function FindEmployee(emps: seq<Employee>, id: nat): (r: Option<Employee>)
    ensures r.Some? <==> HasEmployee(emps, id)
    ensures r.Some? ==> r.value in emps && r.value.id == id
  {
    if emps == [] then None
    else if emps[0].id == id then Some(emps[0])
    else
      var r := FindEmployee(emps[1..], id);
      assert HasEmployee(emps, id) ==> HasEmployee(emps[1..], id) by {
        if HasEmployee(emps, id) {
          var i :| 0 <= i < |emps| && emps[i].id == id;
          assert emps[1..][i - 1] == emps[i];
        }
      }
      assert HasEmployee(emps[1..], id) ==> HasEmployee(emps, id) by {
        if HasEmployee(emps[1..], id) {
          var i :| 0 <= i < |emps[1..]| && emps[1..][i].id == id;
          assert emps[i + 1] == emps[1..][i];
        }
      }
      r
  }

  lemma HasEmployeeFromMember(emps: seq<Employee>, e: Employee)
    requires e in emps
    ensures HasEmployee(emps, e.id)
  {
    var i :| 0 <= i < |emps| && emps[i] == e;
  }

  // ------------------------------------------- approve, deactivate, reactivate

  /** `UPDATE employees SET is_approved = value WHERE id = ?`. */
  function SetApproved(emps: seq<Employee>, id: nat, value: bool): (r: seq<Employee>)
    ensures |r| == |emps|
    ensures forall i | 0 <= i < |emps| ::
      r[i] == if emps[i].id == id then emps[i].(approved := value) else emps[i]
  {
    if emps == [] then []
    else [if emps[0].id == id then emps[0].(approved := value) else emps[0]] + SetApproved(emps[1..], id, value)
  }

  /** The rows `WHERE id = ? AND is_approved = 0` selects (index.php:333 and 354). */
  function PendingWith(id: nat): Employee -> bool
  {
    (e: Employee) => e.id == id && !e.approved
  }

  /** Some employee with the id is not approved. */
  predicate HasPending(emps: seq<Employee>, id: nat)
  {
    exists i | 0 <= i < |emps| :: emps[i].id == id && !emps[i].approved
  }

  /** rowCount of the approve statement, or of the reject statement. */
  function PendingCountWith(emps: seq<Employee>, id: nat): nat
  {
    |Filter(emps, PendingWith(id))|
  }

  /**
   * Approving changes a row exactly when an unapproved employee has the id;
   * setting `is_approved = 1` on rows that already have it changes nothing,
   * so the guarded statement leaves the table as the unguarded one does.
   */
  lemma ApproveEffect(emps: seq<Employee>, id: nat)
    ensures PendingCountWith(emps, id) > 0 <==> HasPending(emps, id)
    ensures forall i | 0 <= i < |emps| :: SetApproved(emps, id, true)[i].approved == (emps[i].approved || emps[i].id == id)
  {
    PendingCount(emps, id);
  }

  /** The approve and reject statements count a row exactly when there is a pending one. */
  lemma PendingCount(emps: seq<Employee>, id: nat)
    ensures PendingCountWith(emps, id) > 0 <==> HasPending(emps, id)
  {
    var f := Filter(emps, PendingWith(id));
    if |f| > 0 {
      assert f[0] in emps && PendingWith(id)(f[0]);
    }
    if HasPending(emps, id) {
      var i :| 0 <= i < |emps| && emps[i].id == id && !emps[i].approved;
      assert PendingWith(id)(emps[i]);
      assert emps[i] in f;
    }
  }

  /** Changing `is_approved` keeps every invariant: ids, emails and keys are untouched. */
  lemma SetApprovedKeepsConsistent(emps: seq<Employee>, pins: map<nat, string>, events: seq<ClockEvent>,
                                   nextEmployee: nat, nextEvent: nat, id: nat, value: bool)
    requires Consistent(emps, pins, events, nextEmployee, nextEvent)
    ensures Consistent(SetApproved(emps, id, value), pins, events, nextEmployee, nextEvent)
  {
    var r := SetApproved(emps, id, value);
    assert forall i | 0 <= i < |r| :: r[i].id == emps[i].id && r[i].email == emps[i].email;
    assert KeysUnique(r, EmployeeId) && KeysUnique(r, EmployeeEmail) by {
      forall i, j | 0 <= i < j < |r| ensures r[i].id != r[j].id && r[i].email != r[j].email {
        assert EmployeeId(emps[i]) != EmployeeId(emps[j]) && EmployeeEmail(emps[i]) != EmployeeEmail(emps[j]);
      }
    }
    forall k | HasEmployee(emps, k) ensures HasEmployee(r, k) {
      var i :| 0 <= i < |emps| && emps[i].id == k;
      assert r[i].id == k;
    }
  }

  // ------------------------------------------------------------------ reject

  /** The rows that survive `DELETE FROM employees WHERE id = ? AND is_approved = 0`. */
  function NotPendingWith(id: nat): Employee -> bool
  {
    (e: Employee) => !(e.id == id && !e.approved)
  }

  function Remove(emps: seq<Employee>, id: nat): seq<Employee>
  {
    Filter(emps, NotPendingWith(id))
  }

  function OtherEmployee(id: nat): ClockEvent -> bool
  {
    (ev: ClockEvent) => ev.employeeId != id
  }

  /** The events the cascade from a deleted employee leaves. */
  function CascadeEvents(events: seq<ClockEvent>, id: nat): seq<ClockEvent>
  {
    Filter(events, OtherEmployee(id))
  }

  /**
   * The delete removes the rows the approve statement would change and no
   * other: its rowCount is that number, no removed row is left and every
   * other row stays.
   */
  lemma RemoveEffect(emps: seq<Employee>, id: nat)
    ensures |emps| - |Remove(emps, id)| == PendingCountWith(emps, id)
    ensures forall i | 0 <= i < |emps| && !(emps[i].id == id && !emps[i].approved) :: emps[i] in Remove(emps, id)
    ensures forall i | 0 <= i < |Remove(emps, id)| ::
      Remove(emps, id)[i] in emps && !(Remove(emps, id)[i].id == id && !Remove(emps, id)[i].approved)
  {
    RemoveCount(emps, id);
  }

  /** The reject statement's rowCount is the number of rows it deletes. */
  lemma RemoveCount(emps: seq<Employee>, id: nat)
    ensures |emps| - |Remove(emps, id)| == PendingCountWith(emps, id)
  {
    FilterPartition(emps, _ => true, NotPendingWith(id), PendingWith(id));
    FilterAll(emps);
  }

  lemma {:induction false} FilterAll<T>(s: seq<T>)
    ensures Filter(s, _ => true) == s
  {
    if s != [] {
      FilterAll(s[1..]);
    }
  }

  /**
   * Deleting an employee together with its PIN and its events keeps every
   * invariant; without the cascade, the foreign keys would break.
   */
  lemma RemoveKeepsConsistent(emps: seq<Employee>, pins: map<nat, string>, events: seq<ClockEvent>,
                              nextEmployee: nat, nextEvent: nat, id: nat)
    requires Consistent(emps, pins, events, nextEmployee, nextEvent)
    ensures Consistent(Remove(emps, id), pins - {id}, CascadeEvents(events, id), nextEmployee, nextEvent)
  {
    var r := Remove(emps, id);
    var evs := CascadeEvents(events, id);
    FilterKeepsUnique(emps, NotPendingWith(id), EmployeeId);
    FilterKeepsUnique(emps, NotPendingWith(id), EmployeeEmail);
    FilterKeepsUnique(events, OtherEmployee(id), EventId);
    forall k | HasEmployee(emps, k) && k != id ensures HasEmployee(r, k) {
      var i :| 0 <= i < |emps| && emps[i].id == k;
      assert NotPendingWith(id)(emps[i]);
      HasEmployeeFromMember(r, emps[i]);
    }
    forall i | 0 <= i < |r| ensures r[i].id < nextEmployee {
      assert r[i] in emps;
    }
    forall i | 0 <= i < |evs| ensures evs[i].id < nextEvent && HasEmployee(r, evs[i].employeeId) {
      assert evs[i] in events && OtherEmployee(id)(evs[i]);
    }
  }

  // --------------------------------------------------------------- reset-pin

  /** `UPDATE pins SET pin_hash = ? WHERE employee_id = ?`. */
  function SetPin(pins: map<nat, string>, id: nat, hash: string): (r: map<nat, string>)
    ensures r.Keys == pins.Keys
    ensures id in pins ==> r[id] == hash
    ensures forall k | k in pins && k != id :: r[k] == pins[k]
  {
    if id in pins then pins[id := hash] else pins
  }

  /** rowCount of the reset-pin statement: MySQL counts changed rows, so a PIN hash reset to itself counts none. */
  predicate PinChanged(pins: map<nat, string>, id: nat, hash: string)
  {
    id in pins && pins[id] != hash
  }

  lemma SetPinKeepsConsistent(emps: seq<Employee>, pins: map<nat, string>, events: seq<ClockEvent>,
                              nextEmployee: nat, nextEvent: nat, id: nat, hash: string)
    requires Consistent(emps, pins, events, nextEmployee, nextEvent)
    ensures Consistent(emps, SetPin(pins, id, hash), events, nextEmployee, nextEvent)
    ensures PinChanged(pins, id, hash) <==> SetPin(pins, id, hash) != pins
  {
    if id in pins && pins[id] == hash {
      assert SetPin(pins, id, hash) == pins;
    }
  }

  // ------------------------------------------------------------------ signup

  predicate EmailTaken(emps: seq<Employee>, email: string)
  {
    exists i | 0 <= i < |emps| :: emps[i].email == email
  }

  /** The row `INSERT INTO employees … VALUES (?, ?, 'employee', 0, NOW())` adds. */
  function NewEmployee(id: nat, name: string, email: string, createdAt: string): (e: Employee)
    ensures e.role == "employee" && !e.approved
  {
    Employee(id, name, email, "employee", false, createdAt)
  }

  /**
   * A signup whose email is free keeps every invariant: the new employee
   * takes the counter's id, and its PIN refers to it.
   */
  lemma SignupKeepsConsistent(emps: seq<Employee>, pins: map<nat, string>, events: seq<ClockEvent>,
                              nextEmployee: nat, nextEvent: nat, name: string, email: string,
                              createdAt: string, hash: string)
    requires Consistent(emps, pins, events, nextEmployee, nextEvent)
    requires !EmailTaken(emps, email)
    ensures Consistent(emps + [NewEmployee(nextEmployee, name, email, createdAt)],
                       pins[nextEmployee := hash], events, nextEmployee + 1, nextEvent)
  {
    var e := NewEmployee(nextEmployee, name, email, createdAt);
    var r := emps + [e];
    forall k | HasEmployee(emps, k) ensures HasEmployee(r, k) {
      var i :| 0 <= i < |emps| && emps[i].id == k;
      assert r[i] == emps[i];
    }
    assert r[|emps|] == e;
    assert HasEmployee(r, nextEmployee);
    forall i, j | 0 <= i < j < |r| ensures r[i].id != r[j].id && r[i].email != r[j].email {
      if j < |emps| {
        assert r[i] == emps[i] && r[j] == emps[j];
      } else {
        assert r[i] == emps[i];
      }
    }
  }

  /** A signup whose email is taken is refused, so emails stay unique. */
  lemma EmailTakenMeansDuplicate(emps: seq<Employee>, name: string, email: string, id: nat, createdAt: string)
    requires EmailTaken(emps, email)
    ensures !KeysUnique(emps + [NewEmployee(id, name, email, createdAt)], EmployeeEmail)
  {
    var i :| 0 <= i < |emps| && emps[i].email == email;
    var r := emps + [NewEmployee(id, name, email, createdAt)];
    assert r[i] == emps[i] && r[|emps|].email == email;
  }

  // ------------------------------------------------------------- clock event

  /** A clock event for an existing employee keeps every invariant. */
  lemma AddEventKeepsConsistent(emps: seq<Employee>, pins: map<nat, string>, events: seq<ClockEvent>,
                                nextEmployee: nat, nextEvent: nat, employeeId: nat, eventType: string,
                                timestamp: string)
    requires Consistent(emps, pins, events, nextEmployee, nextEvent)
    requires HasEmployee(emps, employeeId)
    ensures Consistent(emps, pins, events + [ClockEvent(nextEvent, employeeId, eventType, timestamp)],
                       nextEmployee, nextEvent + 1)
  {
    var r := events + [ClockEvent(nextEvent, employeeId, eventType, timestamp)];
    forall i, j | 0 <= i < j < |r| ensures r[i].id != r[j].id {
      assert r[i] == events[i];
      if j < |events| {
        assert r[j] == events[j];
      }
    }
    forall i | 0 <= i < |r| ensures r[i].id < nextEvent + 1 && HasEmployee(emps, r[i].employeeId) {
      if i < |events| {
        assert r[i] == events[i];
      }
    }
  }

  // ------------------------------------------------------------------- logins

  /** Employees with a role who are approved and have a PIN: the rows of the login `JOIN`. */
  predicate CanLogIn(e: Employee, pins: map<nat, string>, role: string)
  {
    e.role == role && e.approved && e.id in pins
  }

  /** A login row: an employee's columns with the PIN hash joined on. */
  function AccountOf(e: Employee, pins: map<nat, string>): Account
    requires e.id in pins
  {
    Account(e.id, e.name, e.email, e.role, pins[e.id])
  }

  /** The result of the login query, in the order of the `employees` table. */
  function Accounts(emps: seq<Employee>, pins: map<nat, string>, role: string): (r: seq<Account>)
    ensures forall a | a in r :: exists e | e in emps :: CanLogIn(e, pins, role) && a == AccountOf(e, pins)
    ensures forall e | e in emps && CanLogIn(e, pins, role) :: AccountOf(e, pins) in r
  {
    if emps == [] then []
    else
      var e := emps[0];
      var rest := Accounts(emps[1..], pins, role);
      assert forall x | x in emps :: x == e || x in emps[1..];
      if CanLogIn(e, pins, role) then [AccountOf(e, pins)] + rest else rest
  }

  /**
   * A signed-up employee cannot log in before approval: adding the new row
   * and its PIN leaves the login query's result as it was, for every role.
   */
  lemma {:induction false} SignupCannotLogIn(emps: seq<Employee>, pins: map<nat, string>, id: nat, name: string,
                                             email: string, createdAt: string, hash: string, role: string)
    requires forall k | 0 <= k < |emps| :: emps[k].id != id
    ensures Accounts(emps + [NewEmployee(id, name, email, createdAt)], pins[id := hash], role) == Accounts(emps, pins, role)
  {
    var e := NewEmployee(id, name, email, createdAt);
    var pins' := pins[id := hash];
    if emps == [] {
      assert [] + [e] == [e] && [e][1..] == [];
    } else {
      var tail := emps[1..];
      assert (emps + [e])[0] == emps[0] && (emps + [e])[1..] == tail + [e];
      SignupCannotLogIn(tail, pins, id, name, email, createdAt, hash, role);
      assert CanLogIn(emps[0], pins', role) == CanLogIn(emps[0], pins, role);
      if CanLogIn(emps[0], pins, role) {
        assert AccountOf(emps[0], pins') == AccountOf(emps[0], pins);
      }
    }
  }

  /** A signed-up employee is on the pending list: the account awaits approval. */
  lemma SignupPending(emps: seq<Employee>, id: nat, name: string, email: string, createdAt: string)
    ensures AsPendingRow(NewEmployee(id, name, email, createdAt)) in PendingRows(emps + [NewEmployee(id, name, email, createdAt)])
  {
    var r := emps + [NewEmployee(id, name, email, createdAt)];
    PendingRowsCorrect(r);
    assert IsPending(r[|emps|]);
  }

  // ---------------------------------------------------------------- log view

  /** `DATE(timestamp) >= ? AND DATE(timestamp) <= ?`, when both bounds are given. */
  predicate InRange(timestamp: string, range: Option<(string, string)>)
  {
    match range
    case None => true
    case Some((start, end)) => LexLe(start, DatePart(timestamp)) && LexLe(DatePart(timestamp), end)
  }

  function LogFilter(id: nat, range: Option<(string, string)>): ClockEvent -> bool
  {
    (ev: ClockEvent) => ev.employeeId == id && InRange(ev.timestamp, range)
  }

  function EventTime(ev: ClockEvent): string { ev.timestamp }

  function AsLogRow(ev: ClockEvent): LogRow { LogRow(ev.id, ev.eventType, ev.timestamp) }

  /** The clock-logs query (index.php:205-229). */
  function LogRows(events: seq<ClockEvent>, id: nat, range: Option<(string, string)>): seq<LogRow>
  {
    Project(SortBy(Filter(events, LogFilter(id, range)), EventTime, false), AsLogRow)
  }

  /**
   * The logs are the employee's events in the date range, each once, in
   * ascending timestamp order.
   */
  lemma LogRowsCorrect(events: seq<ClockEvent>, id: nat, range: Option<(string, string)>)
    ensures |LogRows(events, id, range)| == |Filter(events, LogFilter(id, range))|
    ensures forall i, j | 0 <= i < j < |LogRows(events, id, range)| ::
      LexLe(LogRows(events, id, range)[i].timestamp, LogRows(events, id, range)[j].timestamp)
    ensures forall k | 0 <= k < |events| && events[k].employeeId == id && InRange(events[k].timestamp, range) ::
      AsLogRow(events[k]) in LogRows(events, id, range)
    ensures forall i | 0 <= i < |LogRows(events, id, range)| :: exists k | 0 <= k < |events| ::
      events[k].employeeId == id && InRange(events[k].timestamp, range) && LogRows(events, id, range)[i] == AsLogRow(events[k])
  {
    var keep := LogFilter(id, range);
    SelectSorted(events, keep, EventTime, false);
    SelectProject(events, keep, EventTime, false, AsLogRow);
    assert forall k | 0 <= k < |events| :: keep(events[k]) == (events[k].employeeId == id && InRange(events[k].timestamp, range));
  }

  // ---------------------------------------------------------- employee lists

  predicate IsStaff(e: Employee) { e.role == "employee" }

  predicate IsPending(e: Employee) { IsStaff(e) && !e.approved }

  function CreatedAt(e: Employee): string { e.createdAt }

  function AsPendingRow(e: Employee): PendingRow { PendingRow(e.id, e.name, e.email, e.createdAt) }

  /** The pending-approvals query (index.php:246-251). */
  function PendingRows(emps: seq<Employee>): seq<PendingRow>
  {
    Project(SortBy(Filter(emps, IsPending), CreatedAt, false), AsPendingRow)
  }

  /** The pending list is every unapproved employee, once, oldest first; no admin is listed. */
  lemma PendingRowsCorrect(emps: seq<Employee>)
    ensures |PendingRows(emps)| == |Filter(emps, IsPending)|
    ensures forall i, j | 0 <= i < j < |PendingRows(emps)| ::
      LexLe(PendingRows(emps)[i].createdAt, PendingRows(emps)[j].createdAt)
    ensures forall k | 0 <= k < |emps| && IsPending(emps[k]) :: AsPendingRow(emps[k]) in PendingRows(emps)
    ensures forall i | 0 <= i < |PendingRows(emps)| :: exists k | 0 <= k < |emps| ::
      IsPending(emps[k]) && PendingRows(emps)[i] == AsPendingRow(emps[k])
  {
    SelectSorted(emps, IsPending, CreatedAt, false);
    SelectProject(emps, IsPending, CreatedAt, false, AsPendingRow);
  }

  /** The all-employees query (index.php:266-271): staff, newest first. */
  function StaffRows(emps: seq<Employee>): (r: seq<Employee>)
    ensures Ordered(r, CreatedAt, true)
    ensures |r| == |Filter(emps, IsStaff)|
    ensures forall k | 0 <= k < |emps| && IsStaff(emps[k]) :: emps[k] in r
    ensures forall i | 0 <= i < |r| :: r[i] in emps && IsStaff(r[i])
  {
    SelectSorted(emps, IsStaff, CreatedAt, true);
    SortBy(Filter(emps, IsStaff), CreatedAt, true)
  }

  // ------------------------------------------------------------------ stats

  predicate IsApprovedStaff(e: Employee) { IsStaff(e) && e.approved }

  function OnDay(today: string): ClockEvent -> bool
  {
    (ev: ClockEvent) => DatePart(ev.timestamp) == today
  }

  function ClockInOnDay(today: string): ClockEvent -> bool
  {
    (ev: ClockEvent) => ev.eventType == "in" && DatePart(ev.timestamp) == today
  }

  /** `COUNT(DISTINCT employee_id) … WHERE DATE(timestamp) = CURDATE()`. */
  function ActiveIds(events: seq<ClockEvent>, today: string): set<nat>
  {
    set i | 0 <= i < |events| && DatePart(events[i].timestamp) == today :: events[i].employeeId
  }

  /** The dashboard numbers (index.php:286-319). */
  datatype Stats = Stats(totalEmployees: nat, activeEmployees: nat, pendingApprovals: nat, todayClockIns: nat)

  function StatsOf(emps: seq<Employee>, events: seq<ClockEvent>, today: string): Stats
  {
    Stats(|Filter(emps, IsApprovedStaff)|, |ActiveIds(events, today)|, |Filter(emps, IsPending)|,
          |Filter(events, ClockInOnDay(today))|)
  }

  /**
   * Approved and pending staff together are all the staff; no more
   * employees are active today than there are events today, and today's
   * clock-ins are among today's events.
   */
  lemma StatsBounds(emps: seq<Employee>, events: seq<ClockEvent>, today: string)
    ensures StatsOf(emps, events, today).totalEmployees + StatsOf(emps, events, today).pendingApprovals
      == |Filter(emps, IsStaff)|
    ensures StatsOf(emps, events, today).activeEmployees <= |Filter(events, OnDay(today))|
    ensures StatsOf(emps, events, today).todayClockIns <= |Filter(events, OnDay(today))|
  {
    FilterPartition(emps, IsStaff, IsApprovedStaff, IsPending);
    FilterMonotone(events, ClockInOnDay(today), OnDay(today));
    ActiveIdsBound(events, today);
  }

  lemma {:induction false} ActiveIdsBound(events: seq<ClockEvent>, today: string)
    ensures |ActiveIds(events, today)| <= |Filter(events, OnDay(today))|
  {
    if events != [] {
      ActiveIdsBound(events[1..], today);
      ActiveIdsCons(events, today);
    }
  }

  /** Today's active employees of a non-empty log: those of its tail, and the head's when it falls on today. */
  lemma ActiveIdsCons(events: seq<ClockEvent>, today: string)
    requires events != []
    ensures ActiveIds(events, today)
            == (if DatePart(events[0].timestamp) == today then {events[0].employeeId} else {}) + ActiveIds(events[1..], today)
  {
    var tail := events[1..];
    forall x | x in ActiveIds(events, today) ensures x in ActiveIds(tail, today) || (x == events[0].employeeId && DatePart(events[0].timestamp) == today) {
      var i :| 0 <= i < |events| && DatePart(events[i].timestamp) == today && events[i].employeeId == x;
      if i > 0 {
        assert tail[i - 1] == events[i];
      }
    }
    forall x | x in ActiveIds(tail, today) ensures x in ActiveIds(events, today) {
      var i :| 0 <= i < |tail| && DatePart(tail[i].timestamp) == today && tail[i].employeeId == x;
      assert events[i + 1] == tail[i];
    }
  }

  /**
   * Recording an event adds its employee to today's active employees when
   * it falls on today, and changes nothing otherwise.
   */
  lemma ActiveIdsAppend(events: seq<ClockEvent>, ev: ClockEvent, today: string)
    ensures ActiveIds(events + [ev], today)
      == ActiveIds(events, today) + (if DatePart(ev.timestamp) == today then {ev.employeeId} else {})
  {
    var longer := events + [ev];
    var here := if DatePart(ev.timestamp) == today then {ev.employeeId} else {};
    forall x | x in ActiveIds(longer, today) ensures x in ActiveIds(events, today) + here {
      var i :| 0 <= i < |longer| && DatePart(longer[i].timestamp) == today && longer[i].employeeId == x;
      if i < |events| {
        assert longer[i] == events[i];
      }
    }
    forall x | x in ActiveIds(events, today) ensures x in ActiveIds(longer, today) {
      var i :| 0 <= i < |events| && DatePart(events[i].timestamp) == today && events[i].employeeId == x;
      assert longer[i] == events[i];
    }
    if DatePart(ev.timestamp) == today {
      assert longer[|events|] == ev;
    }
  }

  // ----------------------------------------------------------------- exports

  /** Rows an export selects: all events, or one employee's. */
  predicate Selected(ev: ClockEvent, only: Option<nat>)
  {
    only.None? || ev.employeeId == only.value
  }

  /** `FROM clock_events ce JOIN employees e ON ce.employee_id = e.id`, in event order. */
  function Joined(emps: seq<Employee>, events: seq<ClockEvent>, only: Option<nat>): (r: seq<ExportRow>)
    ensures |r| <= |events|
  {
    if events == [] then []
    else
      var ev := events[0];
      var rest := Joined(emps, events[1..], only);
      match FindEmployee(emps, ev.employeeId)
      case Some(e) =>
        if Selected(ev, only) then [ExportRow(e.name, e.email, ev.eventType, ev.timestamp)] + rest else rest
      case None => rest
  }

  function RowTime(r: ExportRow): string { r.timestamp }

  /** The export query (index.php:578-584 and 612-620): the join, newest first. */
  function ExportRows(emps: seq<Employee>, events: seq<ClockEvent>, only: Option<nat>): (r: seq<ExportRow>)
    ensures Ordered(r, RowTime, true)
    ensures multiset(r) == multiset(Joined(emps, events, only))
  {
    SortByCorrect(Joined(emps, events, only), RowTime, true);
    SortBy(Joined(emps, events, only), RowTime, true)
  }

  /** Every event whose employee exists gives one row, so the join drops nothing the foreign key keeps. */
  lemma {:induction false} JoinedCount(emps: seq<Employee>, events: seq<ClockEvent>, only: Option<nat>)
    requires forall i | 0 <= i < |events| :: HasEmployee(emps, events[i].employeeId)
    ensures |Joined(emps, events, only)| == |Filter(events, e => Selected(e, only))|
  {
    if events != [] {
      JoinedCount(emps, events[1..], only);
    }
  }

  /**
   * With the foreign key in place, an export has no rows (the 404 cases at
   * index.php:586 and 622) exactly when no event is selected.
   */
  lemma ExportEmptyIff(emps: seq<Employee>, events: seq<ClockEvent>, only: Option<nat>)
    requires forall i | 0 <= i < |events| :: HasEmployee(emps, events[i].employeeId)
    ensures ExportRows(emps, events, only) == [] <==> forall i | 0 <= i < |events| :: !Selected(events[i], only)
  {
    JoinedCount(emps, events, only);
    var keep := (e: ClockEvent) => Selected(e, only);
    var f := Filter(events, keep);
    var r := ExportRows(emps, events, only);
    assert |multiset(r)| == |multiset(Joined(emps, events, only))|;
    if f != [] {
      assert f[0] in events && keep(f[0]);
      var i :| 0 <= i < |events| && events[i] == f[0];
      assert Selected(events[i], only);
    }
    if exists i | 0 <= i < |events| :: Selected(events[i], only) {
      var i :| 0 <= i < |events| && Selected(events[i], only);
      assert keep(events[i]);
      assert events[i] in f;
    }
  }

  /**
   * Every row of one employee's export carries that employee's name and
   * email, so the file name taken from the first row names that employee.
   */
  lemma {:induction false} JoinedNames(emps: seq<Employee>, events: seq<ClockEvent>, e: Employee)
    requires KeysUnique(emps, EmployeeId) && e in emps
    ensures forall i | 0 <= i < |Joined(emps, events, Some(e.id))| ::
      Joined(emps, events, Some(e.id))[i].name == e.name && Joined(emps, events, Some(e.id))[i].email == e.email
  {
    if events != [] {
      JoinedNames(emps, events[1..], e);
      var ev := events[0];
      var f := FindEmployee(emps, ev.employeeId);
      if f.Some? && Selected(ev, Some(e.id)) {
        var a :| 0 <= a < |emps| && emps[a] == f.value;
        var b :| 0 <= b < |emps| && emps[b] == e;
        assert a == b;
      }
    }
  }

  lemma ExportNames(emps: seq<Employee>, events: seq<ClockEvent>, e: Employee)
    requires KeysUnique(emps, EmployeeId) && e in emps
    ensures forall i | 0 <= i < |ExportRows(emps, events, Some(e.id))| ::
      ExportRows(emps, events, Some(e.id))[i].name == e.name
  {
    var j := Joined(emps, events, Some(e.id));
    var r := ExportRows(emps, events, Some(e.id));
    JoinedNames(emps, events, e);
    forall i | 0 <= i < |r| ensures r[i].name == e.name {
      assert r[i] in multiset(j);
      var m :| 0 <= m < |j| && j[m] == r[i];
    }
  }
}
