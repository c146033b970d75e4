/** The second group of models in scheduler_booker/session/models.py (lines 99-137):
    sessions with a start and end timestamp and a tutor, the overlap query over the
    stored sessions, and a payment settled through an external payment processor. */
module Scheduling {
  import opened Common

  type StudentId = nat
  type TutorId = nat
  type SessionId = nat

  /** A booking; `start` and `end` are timestamps in seconds. */
  datatype Session = Session(student: StudentId, tutor: TutorId, start: int, end: int, confirmed: bool)

  /** The filter of `check_overlap`: same tutor, starts before `me` ends, ends after `me` starts. */
  predicate Intersects(other: Session, me: Session)
  {
    other.tutor == me.tutor && other.start < me.end && other.end > me.start
  }

  /** The query set of `check_overlap`: the stored sessions that pass the filter, in store order. */
  function Overlapping(stored: seq<Session>, me: Session): (r: seq<Session>)
    ensures forall x :: x in r <==> x in stored && Intersects(x, me)
    ensures |r| <= |stored|
  {
    if stored == [] then []
    else if Intersects(stored[0], me) then [stored[0]] + Overlapping(stored[1..], me)
    else Overlapping(stored[1..], me)
  }

  /** `Session.check_overlap`: whether the query set is non-empty. */
  function CheckOverlap(stored: seq<Session>, me: Session): (b: bool)
    ensures b <==> exists i :: 0 <= i < |stored| && Intersects(stored[i], me)
  {
    var r := Overlapping(stored, me);
    if |r| > 0 then
      assert r[0] in r;
      true
    else
      assert forall i :: 0 <= i < |stored| ==> stored[i] in stored;
      false
  }

  /** The filter is symmetric: whichever of two sessions is checked, the clash is the same. */
  lemma IntersectsSymmetric(a: Session, b: Session)
    ensures Intersects(a, b) <==> Intersects(b, a)
  {
  }

  /** Windows that only touch, one ending exactly when the other starts, do not overlap. */
  lemma TouchingWindowsDoNotOverlap(a: Session, b: Session)
    requires a.end == b.start
    ensures !CheckOverlap([a], b) && !CheckOverlap([b], a)
  {
  }

  /** The tutor X example: [10:00,11:00] clashes with [10:30,11:30] and not with [11:00,12:00]. */
  lemma OverlapExample(x: TutorId, student: StudentId)
    ensures var booked := [Session(student, x, 10 * 3600, 11 * 3600, false)];
      && CheckOverlap(booked, Session(student, x, 10 * 3600 + 1800, 11 * 3600 + 1800, false))
      && !CheckOverlap(booked, Session(student, x, 11 * 3600, 12 * 3600, false))
  {
    var booked := [Session(student, x, 10 * 3600, 11 * 3600, false)];
    assert Intersects(booked[0], Session(student, x, 10 * 3600 + 1800, 11 * 3600 + 1800, false));
  }

  /** An empty store never reports an overlap. */
  lemma EmptyStoreNeverOverlaps(me: Session)
    ensures !CheckOverlap([], me)
  {
  }

  /** Sessions of other tutors never change the answer, wherever they are stored. */
  lemma OtherTutorsIgnored(before: seq<Session>, others: seq<Session>, after: seq<Session>, me: Session)
    requires forall i :: 0 <= i < |others| ==> others[i].tutor != me.tutor
    ensures CheckOverlap(before + others + after, me) == CheckOverlap(before + after, me)
    ensures !CheckOverlap(others, me)
  {
    var all := before + others + after;
    if CheckOverlap(all, me) {
      var i :| 0 <= i < |all| && Intersects(all[i], me);
      if i < |before| {
        assert (before + after)[i] == all[i];
      } else if |before| + |others| <= i {
        assert (before + after)[i - |others|] == all[i];
      }
    }
    if CheckOverlap(before + after, me) {
      var i :| 0 <= i < |before + after| && Intersects((before + after)[i], me);
      if i < |before| {
        assert all[i] == (before + after)[i];
      } else {
        assert all[i + |others|] == (before + after)[i];
      }
    }
  }

  /** The query does not leave the checked session out: a stored session with a
      non-empty window always overlaps itself. */
  lemma StoredSessionOverlapsItself(stored: seq<Session>, me: Session)
    requires me in stored && me.start < me.end
    ensures CheckOverlap(stored, me)
  {
    var i :| 0 <= i < |stored| && stored[i] == me;
  }

  /** Any two stored sessions of one tutor whose windows intersect are each reported. */
  lemma ClashSeenFromBothSides(stored: seq<Session>, a: Session, b: Session)
    requires a in stored && b in stored && Intersects(a, b)
    ensures CheckOverlap(stored, a) && CheckOverlap(stored, b)
  {
    var i :| 0 <= i < |stored| && stored[i] == a;
    var j :| 0 <= j < |stored| && stored[j] == b;
    IntersectsSymmetric(a, b);
  }

  /** No two stored sessions of one tutor intersect. */
  ghost predicate NoDoubleBooking(stored: seq<Session>)
  {
    forall i, j :: 0 <= i < j < |stored| ==> !Intersects(stored[i], stored[j])
  }

  /** Storing a session only when `check_overlap` is false keeps the tutors free of double bookings. */
  lemma GuardedInsertKeepsNoDoubleBooking(stored: seq<Session>, me: Session)
    requires NoDoubleBooking(stored) && !CheckOverlap(stored, me)
    ensures NoDoubleBooking(stored + [me])
  {
    var all := stored + [me];
    forall i, j | 0 <= i < j < |all| ensures !Intersects(all[i], all[j]) {
      if j == |stored| {
        assert all[j] == me && all[i] == stored[i];
      } else {
        assert all[i] == stored[i] && all[j] == stored[j];
      }
    }
  }

  // ---------------------------------------------------------------------------
  // Settlement through the payment processor

  /** The intent `create_payment` returns: the id the processor assigned, with the amount in cents
      and the currency that were submitted, as recorded by the model (the processor returns only the id). */
  datatype PaymentIntent = PaymentIntent(id: string, amount: int, currency: string)

  const Currency: string := "usd"

  /** Python's `int()` on a number: truncation toward zero. */
  function TruncateTowardZero(x: real): (n: int)
    ensures 0.0 <= x ==> n as real <= x < n as real + 1.0
    ensures x < 0.0 ==> n as real - 1.0 < x <= n as real
  {
    if 0.0 <= x then x.Floor else -((-x).Floor)
  }

  /** The amount in cents that is submitted: `int(amount * 100)`. */
  function MinorUnits(amount: real): (cents: int)
  {
    TruncateTowardZero(amount * 100.0)
  }

  /** An amount with at most two decimal places, as the amount column holds. */
  predicate HasTwoDecimals(amount: real)
  {
    (amount * 100.0).Floor as real == amount * 100.0
  }

  /** For a two-decimal amount the conversion is exact. */
  lemma MinorUnitsExact(amount: real)
    requires HasTwoDecimals(amount)
    ensures MinorUnits(amount) as real == amount * 100.0
  {
  }

  /** Converting a whole number of cents back from the decimal amount gives that number. */
  lemma MinorUnitsOfCents(cents: int)
    ensures HasTwoDecimals(cents as real / 100.0)
    ensures MinorUnits(cents as real / 100.0) == cents
  {
    assert cents as real / 100.0 * 100.0 == cents as real;
  }

  /** For any non-negative amount truncation loses less than one cent and never adds. */
  lemma MinorUnitsLoss(amount: real)
    requires 0.0 <= amount
    ensures 0.0 <= amount - MinorUnits(amount) as real / 100.0 < 0.01
  {
  }

  /** Truncation is symmetric about zero. */
  lemma MinorUnitsOdd(amount: real)
    ensures MinorUnits(-amount) == -MinorUnits(amount)
  {
    assert -amount * 100.0 == -(amount * 100.0);
  }

  /** A payment row of this group; `create_payment` records the processor's id on it. */
  class Payment {
    var session: SessionId
    var amount: real
    var status: string
    var stripePaymentId: Option<string>

    constructor (session: SessionId, amount: real, status: string)
      ensures this.session == session && this.amount == amount && this.status == status
      ensures stripePaymentId == None
    {
      this.session := session;
      this.amount := amount;
      this.status := status;
      stripePaymentId := None;
    }

    /** `Payment.create_payment`: submits the amount in cents to `submit`, which returns the
        processor's id or None when the call raises, and records the id on success. */
    method CreatePayment(submit: (int, string) -> Option<string>) returns (intent: Option<PaymentIntent>)
      modifies this
      ensures intent.Some? <==> submit(MinorUnits(amount), Currency).Some?
      ensures intent.Some? ==>
        intent.value == PaymentIntent(submit(MinorUnits(amount), Currency).value, MinorUnits(amount), Currency)
      ensures stripePaymentId == if intent.Some? then Some(intent.value.id) else old(stripePaymentId)
      ensures amount == old(amount) && session == old(session) && status == old(status)
    {
      var cents := MinorUnits(amount);
      var reply := submit(cents, Currency);
      match reply
      case None =>
        intent := None;
      case Some(id) =>
        intent := Some(PaymentIntent(id, cents, Currency));
        stripePaymentId := Some(id);
    }
  }
}
