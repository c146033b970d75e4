# SchedulerBooker session core in Dafny

This project models the booking and payment logic of `scheduler_booker/session/models.py`
in the SchedulerBooker tutoring marketplace. Students book sessions with tutors, and a
session that has an end time gets a payment priced from its duration and the student's
rate. A second group of models checks whether a tutor is double-booked and settles a
payment through an external payment processor.

The source file declares `Student`, `Tutor`, `Session` and `Payment` twice, with different
fields. Each group is modelled in its own module, against its own fields:

- `common.dfy`, module `Common`: the `Option` and `Result` wrappers.
- `booking.dfy`, module `Booking` (lines 9-86): the session save hook and `calculate_price`.
  - `Reprice` and `AfterSave` are pure functions. They give the new store of type `Db` and the
    outcome of pricing and of saving.
  - `Store` is a class holding the maps of students, sessions and payments, plus the next
    payment id. Its methods `CalculatePrice` and `Save` are proved equal to those functions.
  - The lemmas state what the source promises about the two functions.
- `scheduling.dfy`, module `Scheduling` (lines 99-137):
  - `check_overlap` is a function over the stored sessions, given as a sequence.
  - `create_payment` is a method on a `Payment` class. The payment processor is a function
    parameter `submit`. It takes the amount in cents and the currency, and returns the
    processor's id, or `None` when the call raises.

Modelling decisions:

- Times are integer seconds. In the first group they are seconds since midnight.
- Rates and amounts are `real`, so the amount is exactly (end − start) / 3600 × rate. There
  is no rounding, because the code has none.
- As written, `calculate_price` cannot run:
  - it subtracts two `datetime.time` values;
  - it reads `self.session.Student` instead of `self.session.student`;
  - it multiplies a float by a `Decimal`.
  The model computes what was evidently intended.
- The model still keeps the errors the intended code would raise:
  - `MissingTime`: the start or end time is absent. Both fields are nullable.
  - `UnknownStudent`: the student row is missing.
- `save` creates the payment before it prices it. So when pricing raises, the new default
  payment (amount 0, pending) stays in the store, and a session that already has a row keeps
  its old row. The model does the same. In the intended save, a session that had no row keeps
  the row it was given just before pricing. As written, pricing is never reached for such a
  session.
- As written, `save` cannot create a payment for a session that has no row yet (see
  "## Findings"). `AfterSaveAsWritten` models that. `AfterSave` and `Store.Save` model the
  intended save: a session with an end time and no row is stored first, as
  `super().save()` would do, and then gets its payment. So every payment refers to a stored
  session, which `WellFormed` states and every save keeps.
- `calculate_price` reads `self.session`. In `save` that is the in-memory session being saved, which may differ from its stored row. So `Reprice` and `Store.CalculatePrice` take the linked session's id, which the payment must be linked to, and its current values `s`.
- `if self.end_time:` is modelled as "an end time is present". A `datetime.time` is always
  truthy.
- The model adds no behaviour the code lacks:
  - rounding half-up to cents;
  - leaving a paid payment unchanged when it is repriced (`RepriceIgnoresStatus` proves that
    the code reprices it);
  - rejecting an end time at or before the start;
  - excluding the session itself from the overlap query (`StoredSessionOverlapsItself` proves
    that the code does not exclude it);
  - raising an overlap error (the code only reports true or false).

## Model

| member | source | states |
|---|---|---|
| `Booking.Price` | scheduler_booker/session/models.py:84-85 | the intended amount, (end − start) seconds / 3600 × rate, exactly. Its properties are in `PriceExample`, `PriceNonNegative`, `PriceSplits` and `PriceMonotone` |
| `Booking.Amount` | scheduler_booker/session/models.py:83-85 | what `calculate_price` assigns, or the error it raises: a missing time first, then a missing student. Stated in `RepriceSetsOnlyAmount` |
| `Booking.NewPayment` | scheduler_booker/session/models.py:75-77 | the field defaults of a created payment: amount 0, pending, no date. Used in `SaveCreatesPendingPayment` |
| `Booking.Reprice` | scheduler_booker/session/models.py:83-86 | the effect of `calculate_price` on the store. Its properties are in `RepriceSetsOnlyAmount`, `RepriceIdempotent`, `RepriceIgnoresStatus` and `RepriceKeepsWellFormed` |
| `Booking.Registered` | scheduler_booker/session/models.py:57 | the store with a row for the session, which creating its payment needs. The payments are unchanged |
| `Booking.AfterSave` | scheduler_booker/session/models.py:52-64 | the intended `save`. Its properties are in the `Save…` lemmas and `SaveIdempotent` |
| `Booking.AfterSaveAsWritten` | scheduler_booker/session/models.py:52-64 | `save` as written: the as-written half of the finding. Stated in `FirstSaveAsWrittenFails`, `AsWrittenAgreesOnStoredSessions`, `FirstSaveWithoutStartTime` and `SaveAsWrittenKeepsWellFormed` |
| `Scheduling.Intersects` | scheduler_booker/session/models.py:115-119 | the filter of `check_overlap`. Stated in `IntersectsSymmetric`, `Overlapping` and `CheckOverlap` |
| `Scheduling.MinorUnits` | scheduler_booker/session/models.py:132 | `int(amount * 100)`. Stated in `MinorUnitsExact`, `MinorUnitsOfCents`, `MinorUnitsLoss` and `MinorUnitsOdd` |
| `Booking.PriceExample` | scheduler_booker/session/models.py:83-85 | rate 20 over 10:00–11:30 prices at exactly 30 |
| `Booking.PriceNonNegative` | scheduler_booker/session/models.py:84-85 | the price is ≥ 0 when end ≥ start and rate ≥ 0 |
| `Booking.PriceSplits` | scheduler_booker/session/models.py:84-85 | the price of a window is the sum of the prices of two consecutive parts of it (price is linear in duration) |
| `Booking.PriceMonotone` | scheduler_booker/session/models.py:84-85 | a longer session never costs less at a non-negative rate |
| `Booking.LinkOrCreate` | scheduler_booker/session/models.py:55-59 | the payment `save` goes on to price is linked to the saved session, whether it was found or created |
| `Booking.RepriceSetsOnlyAmount` | scheduler_booker/session/models.py:83-86 | `calculate_price` sets the amount to (end − start) / 3600 × the student's rate. It changes no other payment and no session. It leaves the payment's status, date and link unchanged. It succeeds exactly when both times and the student exist, and on failure the store is unchanged. A missing time raises `MissingTime`, even when the student is missing too. With both times present, a missing student raises `UnknownStudent` |
| `Booking.RepriceIdempotent` | scheduler_booker/session/models.py:83-86 | pricing twice gives the same store and outcome as pricing once |
| `Booking.RepriceIgnoresStatus` | scheduler_booker/session/models.py:83-86 | the payment status plays no part: a payment of any status, paid included, gets the same amount and keeps its status |
| `Booking.RepriceExample` | scheduler_booker/session/models.py:83-86 | a payment for a 10:00–11:30 session of a student with rate 20 is priced at 30 |
| `Booking.SaveWithoutEndTime` | scheduler_booker/session/models.py:52-64 | with no end time, `save` succeeds, stores the session, and leaves every payment and the payment counter untouched |
| `Booking.SaveStoresSessionOnSuccess` | scheduler_booker/session/models.py:52-64 | when `save` completes, the session is stored with its new values. If pricing raises, a stored session keeps its old row, and a new session keeps the row made for its payment. It completes exactly when there is no end time, or when there is a start time and the student exists |
| `Booking.SaveAsWrittenKeepsWellFormed` | scheduler_booker/session/models.py:52-64 | `save` as written keeps the store well formed as well |
| `Booking.FirstSaveWithoutStartTime` | scheduler_booker/session/models.py:54-62 | a new session with an end time and no start time: as intended, it is stored with a default payment of 0 and pricing raises `MissingTime`. As written, nothing is stored |
| `Booking.SaveKeepsWellFormed` | scheduler_booker/session/models.py:74 | `save` keeps the session–payment link one-to-one, keeps payment ids fresh, and keeps every payment's session stored |
| `Booking.SaveLeavesExactlyOnePayment` | scheduler_booker/session/models.py:54-59 | after `save` with an end time, exactly one payment is linked to the session, even when pricing raises |
| `Booking.SaveCreatesPendingPayment` | scheduler_booker/session/models.py:55-57 | with an end time and no payment yet, `save` adds one payment under a new id: status pending, no date, amount priced when pricing succeeds and the default 0 when it raises. All other payments are unchanged |
| `Booking.SaveReusesPayment` | scheduler_booker/session/models.py:58-62 | with an end time and a linked payment, `save` creates no payment and reprices the linked one. All other payments are unchanged |
| `Booking.SaveIdempotent` | scheduler_booker/session/models.py:52-64 | saving the same values twice gives the same store and outcome as saving once |
| `Booking.Store.constructor` | scheduler_booker/session/models.py:68-77 | an empty store over the given students satisfies the one-to-one invariant |
| `Booking.RepriceKeepsWellFormed` | scheduler_booker/session/models.py:74-86 | pricing keeps the session–payment link one-to-one and payment ids fresh |
| `Booking.LinkOrCreateKeepsWellFormed` | scheduler_booker/session/models.py:55-59 | finding or creating the payment keeps the link one-to-one and payment ids fresh |
| `Booking.FirstSaveAsWrittenFails` | scheduler_booker/session/models.py:54-57 | as written, saving a session that has no row yet, with an end time, raises and changes nothing |
| `Booking.AsWrittenAgreesOnStoredSessions` | scheduler_booker/session/models.py:52-64 | for a session that already has a row, or a save without an end time, the code as written and the intended save agree |
| `Booking.FirstBookingExample` | scheduler_booker/session/models.py:52-64 | a new 10:00–11:30 booking of a rate-20 student is refused as written. As intended, it is stored with one pending payment of 30 |
| `Booking.Store.CalculatePrice` | scheduler_booker/session/models.py:83-86 | for a payment linked to session `id`, priced from that session's current values, the method keeps the store invariant, and its new state and outcome are exactly those of `Reprice` |
| `Booking.Store.Save` | scheduler_booker/session/models.py:52-64 | the method keeps the store invariant, and its new state and outcome are exactly those of `AfterSave` |
| `Scheduling.Overlapping` | scheduler_booker/session/models.py:115-119 | the query set holds exactly the stored sessions with the same tutor, start < this end and end > this start |
| `Scheduling.CheckOverlap` | scheduler_booker/session/models.py:114-120 | true iff some stored session has the same tutor, start < this end and end > this start |
| `Scheduling.IntersectsSymmetric` | scheduler_booker/session/models.py:116-118 | the filter is symmetric in the two sessions |
| `Scheduling.TouchingWindowsDoNotOverlap` | scheduler_booker/session/models.py:117-118 | windows where one ends exactly when the other starts are not reported, in either direction |
| `Scheduling.OverlapExample` | scheduler_booker/session/models.py:114-120 | for a tutor booked 10:00–11:00, a 10:30–11:30 booking is reported and an 11:00–12:00 booking is not |
| `Scheduling.EmptyStoreNeverOverlaps` | scheduler_booker/session/models.py:120 | an empty store gives false |
| `Scheduling.OtherTutorsIgnored` | scheduler_booker/session/models.py:115-116 | sessions of other tutors never change the answer, wherever they are stored, and on their own they give false |
| `Scheduling.StoredSessionOverlapsItself` | scheduler_booker/session/models.py:115-120 | a stored session with start < end always reports an overlap with itself |
| `Scheduling.ClashSeenFromBothSides` | scheduler_booker/session/models.py:115-120 | when two stored sessions clash, checking either one reports it |
| `Scheduling.GuardedInsertKeepsNoDoubleBooking` | scheduler_booker/session/models.py:114-120 | storing a session only when `check_overlap` is false keeps every tutor free of intersecting bookings |
| `Scheduling.TruncateTowardZero` | scheduler_booker/session/models.py:132 | `int()` gives the integer less than 1 away from x, on the zero side of it |
| `Scheduling.MinorUnitsExact` | scheduler_booker/session/models.py:124-132 | for an amount with two decimal places, `int(amount * 100)` is exactly amount × 100 |
| `Scheduling.MinorUnitsOfCents` | scheduler_booker/session/models.py:124-132 | for any whole number of cents c, c / 100 has two decimals and converts back to c |
| `Scheduling.MinorUnitsLoss` | scheduler_booker/session/models.py:132 | for a non-negative amount, the cents submitted are worth at most the amount and less than one cent below it |
| `Scheduling.MinorUnitsOdd` | scheduler_booker/session/models.py:132 | truncation is symmetric: −amount converts to the negated cents |
| `Scheduling.Payment.constructor` | scheduler_booker/session/models.py:122-126 | a new payment has the given session, amount and status, and no processor id |
| `Scheduling.Payment.CreatePayment` | scheduler_booker/session/models.py:128-137 | submits `int(amount*100)` cents in "usd". On success it returns the intent and records its id as `stripe_payment_id`; when the processor raises, the id is unchanged. The amount, session and status are unchanged either way |

## Left out

- The Stripe SDK call and the hard-coded API key (lines 130-131) are a foreign network client. The processor is the parameter `submit` instead.
- Scheduling.Payment.CreatePayment: the processor is a function, so two calls with the same amount get the same id. The model does not capture a real processor returning a new id on each call.
- Django ORM machinery is left out, modelled as in-memory maps and sequences: `objects.filter` and `create`, the `hasattr` reverse accessor, primary keys, cascade deletes, `super().save` and the `self.save()` calls. Foreign-key enforcement on save is left out as well: a session whose student has no row is stored when it has no end time, although the database would refuse it.
- Field metadata is left out: `max_length`, `max_digits`, `EmailField` validation, `unique=True` and `choices`. These are declarative constraints, enforced by the database or by forms.
- The `Tutor` models and the fields of `Student` other than the rate are left out. No logic reads them.
- The `__str__` methods are display only.
- The floating-point behaviour of `total_seconds() / 3600` and any rounding of the amount as it is stored. The amount is computed exactly.
- The model does not bound times to one day (0 to 86399 seconds) for `TimeField` values, or to a calendar for `DateTimeField` values.
- It does not model the runtime crashes of `calculate_price` as written: a time subtraction, the misspelt `Student` attribute, and float × `Decimal`. The intended computation is modelled instead.
- Concurrency: two bookings racing past the overlap check is a property of the database, not of this code.

## Findings

| source | as written | input that shows it | evidently intended | confidence | as-written member | corrected member |
|---|---|---|---|---|---|---|
| scheduler_booker/session/models.py:55-57 | For a session without a row, `hasattr(self, 'payment')` is false. `Payment.objects.create(session=self)` then raises, because the one-to-one target has no primary key yet. So nothing is created and the session is never stored | The first save of a new booking with an end time, e.g. 10:00–11:30 for a student with rate 20 | The first save stores the new session first, as `super().save()` would, then creates its pending payment and prices it at 30 | not executed | `Booking.FirstSaveAsWrittenFails` | `Booking.SaveCreatesPendingPayment` |
