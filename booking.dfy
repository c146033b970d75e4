/** The first group of models in scheduler_booker/session/models.py (lines 9-86):
    a session booked on a date with optional start and end times, and the
    one-to-one payment that saving a session with an end time derives from the
    student's rate. */
module Booking {
  import opened Common

  type StudentId = nat
  type TutorId = nat
  type SessionId = nat
  type PaymentId = nat

  /** A student; only the billing rate (`user_rate`) takes part in the logic. */
  datatype Student = Student(rate: real)

  datatype SessionStatus = SessionPending | SessionConfirmed

  /** A booking. Times of day are seconds since midnight; either may be absent. */
  datatype Session = Session(
    student: StudentId,
    tutor: TutorId,
    date: int,
    start: Option<int>,
    end: Option<int>,
    place: string,
    topic: string,
    status: SessionStatus)

  datatype PaymentStatus = PaymentPending | Paid

  /** A payment row; `session` is its one-to-one link. */
  datatype Payment = Payment(session: SessionId, amount: real, status: PaymentStatus, paidAt: Option<int>)

  /** Why pricing a session raises instead of returning. */
  datatype Error =
    | MissingTime     // a start or end time is absent, so they cannot be subtracted
    | UnknownStudent  // the session's student row does not exist
    | UnsavedSession  // a payment cannot be created for a session that has no row yet

  /** Whether a call completed or raised. */
  datatype Outcome = Pass | Fail(error: Error)

  const SecondsPerHour: int := 3600

  /** A freshly created payment takes the field defaults: amount 0, pending, no date. */
  function NewPayment(id: SessionId): (p: Payment)
  {
    Payment(id, 0.0, PaymentPending, None)
  }

  /** Duration in hours times the hourly rate, in exact arithmetic. */
  function Price(start: int, end: int, rate: real): (r: real)
  {
    (end - start) as real / SecondsPerHour as real * rate
  }

  /** What `calculate_price` assigns to the amount for session `s`, or why it raises. */
  function Amount(students: map<StudentId, Student>, s: Session): (r: Result<real, Error>)
  {
    if s.start.None? || s.end.None? then Err(MissingTime)
    else if s.student !in students then Err(UnknownStudent)
    else Ok(Price(s.start.value, s.end.value, students[s.student].rate))
  }

  lemma PriceExample()
    ensures Price(10 * 3600, 11 * 3600 + 30 * 60, 20.0) == 30.0
  {
  }

  lemma PriceNonNegative(start: int, end: int, rate: real)
    requires start <= end && 0.0 <= rate
    ensures 0.0 <= Price(start, end, rate)
  {
    var hours := (end - start) as real / SecondsPerHour as real;
    assert 0.0 <= hours;
    assert Price(start, end, rate) == hours * rate;
  }

  /** Pricing a window in two consecutive parts costs the same as pricing it whole. */
  lemma PriceSplits(start: int, mid: int, end: int, rate: real)
    ensures Price(start, end, rate) == Price(start, mid, rate) + Price(mid, end, rate)
  {
    var h := SecondsPerHour as real;
    var a := (mid - start) as real;
    var b := (end - mid) as real;
    assert (end - start) as real == a + b;
    assert (a + b) / h * rate == a / h * rate + b / h * rate;
  }

  /** A longer session never costs less at a non-negative rate. */
  lemma PriceMonotone(start: int, end: int, end': int, rate: real)
    requires end <= end' && 0.0 <= rate
    ensures Price(start, end, rate) <= Price(start, end', rate)
  {
    PriceSplits(start, end, end', rate);
    PriceNonNegative(end, end', rate);
  }

  /** The whole store: the tables of this group of models. */
  datatype Db = Db(
    students: map<StudentId, Student>,
    sessions: map<SessionId, Session>,
    payments: map<PaymentId, Payment>,
    nextPayment: PaymentId)

  /** Payment `p` is the one linked to session `id`. */
  ghost predicate Linked(payments: map<PaymentId, Payment>, id: SessionId, p: PaymentId)
  {
    p in payments && payments[p].session == id
  }

  /** Payment ids are below the next one to hand out, every payment's session has a row,
      and no session has two payments. */
  ghost predicate WellFormed(db: Db)
  {
    && (forall p :: p in db.payments ==> p < db.nextPayment)
    && (forall p :: p in db.payments ==> db.payments[p].session in db.sessions)
    && (forall p, q :: p in db.payments && q in db.payments && db.payments[p].session == db.payments[q].session ==> p == q)
  }

  /** The effect of `payment.calculate_price()` on payment `pid`, which is linked to session `id`;
      `s` holds the current in-memory values of session `id`, which may not be stored yet. */
  function Reprice(db: Db, pid: PaymentId, id: SessionId, s: Session): (r: (Db, Outcome))
    requires pid in db.payments && db.payments[pid].session == id
  {
    match Amount(db.students, s)
    case Err(e) => (db, Fail(e))
    case Ok(a) => (db.(payments := db.payments[pid := db.payments[pid].(amount := a)]), Pass)
  }

  /** The payment `save` prices: the linked one, or a new default one created for session `id`. */
  ghost function LinkOrCreate(db: Db, id: SessionId): (r: (Db, PaymentId))
    ensures Linked(r.0.payments, id, r.1)
  {
    if exists p :: Linked(db.payments, id, p) then
      var p :| Linked(db.payments, id, p);
      (db, p)
    else
      (db.(payments := db.payments[db.nextPayment := NewPayment(id)], nextPayment := db.nextPayment + 1),
       db.nextPayment)
  }

  /** The store with a row for session `id`: a session that has none is stored with values `s`,
      so that a payment can refer to it. */
  function Registered(db: Db, id: SessionId, s: Session): (r: Db)
    ensures id in r.sessions && r.payments == db.payments && r.nextPayment == db.nextPayment
  {
    if id in db.sessions then db else db.(sessions := db.sessions[id := s])
  }

  /** The effect of `session.save()` for session `id` with new values `s`, as intended: with an end
      time, a session without a row is stored first; then the payment is found or created and
      priced; a pricing error leaves a stored session's old row in place. */
  ghost function AfterSave(db: Db, id: SessionId, s: Session): (r: (Db, Outcome))
  {
    if s.end.None? then
      (db.(sessions := db.sessions[id := s]), Pass)
    else
      var (db1, pid) := LinkOrCreate(Registered(db, id, s), id);
      var (db2, out) := Reprice(db1, pid, id, s);
      (if out.Pass? then db2.(sessions := db2.sessions[id := s]) else db2, out)
  }

  // ---------------------------------------------------------------------------
  // Properties of pricing

  /** Pricing changes the amount of `pid` and nothing else, and sets it to duration times rate. */
  lemma RepriceSetsOnlyAmount(db: Db, pid: PaymentId, id: SessionId, s: Session)
    requires pid in db.payments && db.payments[pid].session == id
    ensures var (db', out) := Reprice(db, pid, id, s);
      && db'.students == db.students && db'.sessions == db.sessions
      && db'.nextPayment == db.nextPayment
      && db'.payments.Keys == db.payments.Keys
      && (forall q :: q in db.payments && q != pid ==> db'.payments[q] == db.payments[q])
      && db'.payments[pid].session == db.payments[pid].session
      && db'.payments[pid].status == db.payments[pid].status
      && db'.payments[pid].paidAt == db.payments[pid].paidAt
      && (out.Pass? <==> s.start.Some? && s.end.Some? && s.student in db.students)
      && (out.Pass? ==> db'.payments[pid].amount == Price(s.start.value, s.end.value, db.students[s.student].rate))
      && (s.start.None? || s.end.None? ==> out == Fail(MissingTime))
      && (s.start.Some? && s.end.Some? && s.student !in db.students ==> out == Fail(UnknownStudent))
      && (out.Fail? ==> db' == db)
  {
  }

  /** Pricing keeps payment ids fresh and the session-payment link one-to-one. */
  lemma RepriceKeepsWellFormed(db: Db, pid: PaymentId, id: SessionId, s: Session)
    requires WellFormed(db) && pid in db.payments && db.payments[pid].session == id
    ensures WellFormed(Reprice(db, pid, id, s).0)
  {
    var db' := Reprice(db, pid, id, s).0;
    assert forall p :: p in db'.payments ==> p in db.payments && db'.payments[p].session == db.payments[p].session;
  }

  /** Pricing twice gives the same store as pricing once. */
  lemma RepriceIdempotent(db: Db, pid: PaymentId, id: SessionId, s: Session)
    requires pid in db.payments && db.payments[pid].session == id
    ensures pid in Reprice(db, pid, id, s).0.payments && Reprice(db, pid, id, s).0.payments[pid].session == id
    ensures Reprice(Reprice(db, pid, id, s).0, pid, id, s) == Reprice(db, pid, id, s)
  {
    var (db', out) := Reprice(db, pid, id, s);
    if out.Pass? {
      assert db'.payments[pid := db'.payments[pid].(amount := Amount(db.students, s).value)] == db'.payments;
    }
  }

  /** The payment's status plays no part: a paid payment is repriced like a pending one. */
  lemma RepriceIgnoresStatus(db: Db, pid: PaymentId, id: SessionId, s: Session, st: PaymentStatus)
    requires pid in db.payments && db.payments[pid].session == id
    ensures var db0 := db.(payments := db.payments[pid := db.payments[pid].(status := st)]);
      && Reprice(db0, pid, id, s).1 == Reprice(db, pid, id, s).1
      && Reprice(db0, pid, id, s).0.payments[pid].amount == Reprice(db, pid, id, s).0.payments[pid].amount
      && Reprice(db0, pid, id, s).0.payments[pid].status == st
  {
  }

  /** Rate 20 over 10:00-11:30 gives 30. */
  lemma RepriceExample(db: Db, pid: PaymentId, id: SessionId, s: Session)
    requires pid in db.payments && db.payments[pid].session == id && s.student in db.students && db.students[s.student].rate == 20.0
    requires s.start == Some(10 * 3600) && s.end == Some(11 * 3600 + 30 * 60)
    ensures Reprice(db, pid, id, s).1 == Pass
    ensures Reprice(db, pid, id, s).0.payments[pid].amount == 30.0
  {
    PriceExample();
  }

  // ---------------------------------------------------------------------------
  // Properties of saving

  /** Without an end time, save stores the session and leaves every payment untouched. */
  lemma SaveWithoutEndTime(db: Db, id: SessionId, s: Session)
    requires s.end.None?
    ensures AfterSave(db, id, s).1 == Pass
    ensures AfterSave(db, id, s).0 == db.(sessions := db.sessions[id := s])
  {
  }

  /** A session is stored with its new values when save completes. When pricing raises, a stored
      session keeps its old row and a new session keeps the row created for its payment. */
  lemma SaveStoresSessionOnSuccess(db: Db, id: SessionId, s: Session)
    ensures var (db', out) := AfterSave(db, id, s);
      && db'.students == db.students
      && (out.Pass? ==> db'.sessions == db.sessions[id := s])
      && (out.Fail? ==> db'.sessions == if id in db.sessions then db.sessions else db.sessions[id := s])
      && (out.Pass? <==> s.end.None? || (s.start.Some? && s.student in db.students))
  {
  }

  /** Save keeps payment ids fresh and the session-payment link one-to-one. */
  lemma SaveKeepsWellFormed(db: Db, id: SessionId, s: Session)
    requires WellFormed(db)
    ensures WellFormed(AfterSave(db, id, s).0)
  {
    if s.end.Some? {
      LinkOrCreateKeepsWellFormed(Registered(db, id, s), id);
      var (db1, pid) := LinkOrCreate(Registered(db, id, s), id);
      RepriceKeepsWellFormed(db1, pid, id, s);
    }
  }

  /** Finding or creating the payment keeps the link one-to-one. */
  lemma LinkOrCreateKeepsWellFormed(db: Db, id: SessionId)
    requires WellFormed(db) && id in db.sessions
    ensures WellFormed(LinkOrCreate(db, id).0)
  {
    var (db1, pid) := LinkOrCreate(db, id);
    if !exists p :: Linked(db.payments, id, p) {
      assert forall p :: !Linked(db.payments, id, p);
      assert forall p :: p in db1.payments ==> (db1.payments[p].session == id <==> p == db.nextPayment) by {
        forall p | p in db1.payments && p != db.nextPayment ensures db1.payments[p].session != id {
          assert !Linked(db.payments, id, p);
        }
      }
    }
  }

  /** With an end time, the session ends up with exactly one payment, even when pricing fails. */
  lemma SaveLeavesExactlyOnePayment(db: Db, id: SessionId, s: Session)
    requires WellFormed(db) && s.end.Some?
    ensures var db' := AfterSave(db, id, s).0;
      exists p :: Linked(db'.payments, id, p) && forall q :: Linked(db'.payments, id, q) ==> q == p
  {
    SaveKeepsWellFormed(db, id, s);
    var (db1, pid) := LinkOrCreate(Registered(db, id, s), id);
    var db' := AfterSave(db, id, s).0;
    assert Linked(db'.payments, id, pid);
  }

  /** With an end time and no payment yet, save adds exactly one new pending payment,
      priced when the session can be priced and at the default 0 otherwise. */
  lemma SaveCreatesPendingPayment(db: Db, id: SessionId, s: Session)
    requires WellFormed(db) && s.end.Some?
    requires forall p :: p in db.payments ==> db.payments[p].session != id
    ensures var (db', out) := AfterSave(db, id, s);
      && db'.nextPayment == db.nextPayment + 1
      && db'.payments == db.payments[db.nextPayment :=
           Payment(id, if out.Pass? then Amount(db.students, s).value else 0.0, PaymentPending, None)]
  {
    assert !exists p :: Linked(db.payments, id, p);
  }

  /** With an end time and a payment already linked, save reprices that payment and creates none. */
  lemma SaveReusesPayment(db: Db, id: SessionId, s: Session, p: PaymentId)
    requires WellFormed(db) && s.end.Some? && Linked(db.payments, id, p)
    ensures var (db', out) := AfterSave(db, id, s);
      && db'.nextPayment == db.nextPayment
      && db'.payments.Keys == db.payments.Keys
      && db'.payments == db.payments[p :=
           if out.Pass? then db.payments[p].(amount := Amount(db.students, s).value) else db.payments[p]]
  {
    assert Registered(db, id, s) == db;
    var (db1, pid) := LinkOrCreate(db, id);
    assert pid == p;
  }

  /** Saving the same values twice gives the same store and outcome as saving once. */
  lemma SaveIdempotent(db: Db, id: SessionId, s: Session)
    requires WellFormed(db)
    ensures AfterSave(AfterSave(db, id, s).0, id, s) == AfterSave(db, id, s)
  {
    if s.end.Some? {
      SaveKeepsWellFormed(db, id, s);
      var (db1, pid) := LinkOrCreate(Registered(db, id, s), id);
      var (db2, out) := Reprice(db1, pid, id, s);
      RepriceIdempotent(db1, pid, id, s);
      var db' := AfterSave(db, id, s).0;
      assert Linked(db'.payments, id, pid);
      assert Registered(db', id, s) == db';
      var (db1', pid') := LinkOrCreate(db', id);
      assert pid' == pid && db1' == db';
      if out.Pass? {
        assert db'.sessions[id := s] == db'.sessions;
        assert Reprice(db', pid, id, s) == (db', Pass);
      } else {
        assert db' == db1;
      }
    } else {
      assert db.sessions[id := s][id := s] == db.sessions[id := s];
    }
  }

  // ---------------------------------------------------------------------------
  // Saving as written: a session without a row cannot get a payment

  /** `session.save()` exactly as written. For a session that has no row yet the reverse
      accessor finds no payment, and creating one raises, because its one-to-one target
      has no primary key; nothing is created and the session is not stored. */
  ghost function AfterSaveAsWritten(db: Db, id: SessionId, s: Session): (r: (Db, Outcome))
  {
    if s.end.Some? && id !in db.sessions then (db, Fail(UnsavedSession))
    else AfterSave(db, id, s)
  }

  /** As written, the first save of a new booking that has an end time fails and changes nothing. */
  lemma FirstSaveAsWrittenFails(db: Db, id: SessionId, s: Session)
    requires id !in db.sessions && s.end.Some?
    ensures AfterSaveAsWritten(db, id, s) == (db, Fail(UnsavedSession))
  {
  }

  /** For a session that already has a row, the code as written and the intended save agree. */
  lemma AsWrittenAgreesOnStoredSessions(db: Db, id: SessionId, s: Session)
    requires id in db.sessions || s.end.None?
    ensures AfterSaveAsWritten(db, id, s) == AfterSave(db, id, s)
  {
  }

  /** As written, save also keeps the store well formed. */
  lemma SaveAsWrittenKeepsWellFormed(db: Db, id: SessionId, s: Session)
    requires WellFormed(db)
    ensures WellFormed(AfterSaveAsWritten(db, id, s).0)
  {
    SaveKeepsWellFormed(db, id, s);
  }

  /** A new session with an end time but no start time: as intended, it is stored with a default
      payment of 0 before pricing raises; as written, nothing is stored. */
  lemma FirstSaveWithoutStartTime(db: Db, id: SessionId, s: Session)
    requires WellFormed(db) && id !in db.sessions && s.end.Some? && s.start.None?
    ensures AfterSave(db, id, s) ==
      (db.(sessions := db.sessions[id := s],
           payments := db.payments[db.nextPayment := NewPayment(id)],
           nextPayment := db.nextPayment + 1), Fail(MissingTime))
    ensures AfterSaveAsWritten(db, id, s) == (db, Fail(UnsavedSession))
  {
    assert !exists p :: Linked(db.payments, id, p);
  }

  /** A new 10:00-11:30 booking of a rate-20 student: as written it is refused and gets no
      payment; as intended it is stored with one pending payment of 30. */
  lemma FirstBookingExample()
    ensures var db := Db(map[0 := Student(20.0)], map[], map[], 0);
      var s := Session(0, 0, 0, Some(10 * 3600), Some(11 * 3600 + 30 * 60), "library", "algebra", SessionPending);
      && AfterSaveAsWritten(db, 7, s) == (db, Fail(UnsavedSession))
      && AfterSave(db, 7, s) == (Db(db.students, map[7 := s], map[0 := Payment(7, 30.0, PaymentPending, None)], 1), Pass)
  {
    var db := Db(map[0 := Student(20.0)], map[], map[], 0);
    var s := Session(0, 0, 0, Some(10 * 3600), Some(11 * 3600 + 30 * 60), "library", "algebra", SessionPending);
    assert !exists p :: Linked(db.payments, 7, p);
    var db0 := Db(db.students, map[7 := s], map[], 0);
    assert Registered(db, 7, s) == db0;
    assert !exists p :: Linked(db0.payments, 7, p);
    var db1 := Db(db.students, map[7 := s], map[0 := NewPayment(7)], 1);
    assert LinkOrCreate(db0, 7) == (db1, 0);
    PriceExample();
    assert Amount(db.students, s) == Ok(30.0);
    assert db1.payments[0 := db1.payments[0].(amount := 30.0)] == map[0 := Payment(7, 30.0, PaymentPending, None)];
    assert Reprice(db1, 0, 7, s) == (db1.(payments := map[0 := Payment(7, 30.0, PaymentPending, None)]), Pass);
    assert map[7 := s][7 := s] == map[7 := s];
  }

  // ---------------------------------------------------------------------------
  // The store as the source updates it

  class Store {
    var students: map<StudentId, Student>
    var sessions: map<SessionId, Session>
    var payments: map<PaymentId, Payment>
    var nextPayment: PaymentId

    function State(): (db: Db)
      reads this
    {
      Db(students, sessions, payments, nextPayment)
    }

    ghost predicate Valid()
      reads this
    {
      WellFormed(State())
    }

    /** An empty booking store over the given students. */
    constructor (students: map<StudentId, Student>)
      ensures Valid()
      ensures State() == Db(students, map[], map[], 0)
    {
      this.students := students;
      sessions := map[];
      payments := map[];
      nextPayment := 0;
    }

    /** `Payment.calculate_price`: sets the amount of payment `pid`, linked to session `id`,
        from `s`, the current values of that session. */
    method CalculatePrice(pid: PaymentId, id: SessionId, s: Session) returns (outcome: Outcome)
      requires Valid()
      requires pid in payments && payments[pid].session == id
      modifies this
      ensures Valid()
      ensures (State(), outcome) == Reprice(old(State()), pid, id, s)
    {
      RepriceKeepsWellFormed(State(), pid, id, s);
      var a := Amount(students, s);
      match a
      case Err(e) =>
        outcome := Fail(e);
      case Ok(amount) =>
        payments := payments[pid := payments[pid].(amount := amount)];
        outcome := Pass;
    }

    /** `Session.save`: stores session `id` with values `s`, deriving its payment first. */
    method Save(id: SessionId, s: Session) returns (outcome: Outcome)
      requires Valid()
      modifies this
      ensures Valid()
      ensures (State(), outcome) == AfterSave(old(State()), id, s)
    {
      SaveKeepsWellFormed(State(), id, s);
      if s.end.None? {
        sessions := sessions[id := s];
        outcome := Pass;
        return;
      }
      if id !in sessions {
        sessions := sessions[id := s];
      }
      ghost var before := State();
      assert before == Registered(old(State()), id, s);
      var pid: PaymentId;
      ghost var linked := LinkOrCreate(before, id);
      if exists p :: p in payments && payments[p].session == id {
        pid :| pid in payments && payments[pid].session == id;
        assert Linked(before.payments, id, pid);
        assert linked.0 == before;
        assert Linked(before.payments, id, linked.1);
      } else {
        assert !exists p :: Linked(before.payments, id, p);
        pid := nextPayment;
        payments := payments[pid := NewPayment(id)];
        nextPayment := nextPayment + 1;
      }
      assert linked.1 == pid && linked.0 == State();
      LinkOrCreateKeepsWellFormed(before, id);
      outcome := CalculatePrice(pid, id, s);
      if outcome.Pass? {
        sessions := sessions[id := s];
      }
    }
  }
}
