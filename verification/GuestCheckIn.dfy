/**
  Enrolment of a new guest (`save_guest`): one row inserted into `guests`
  and one `check_in` event appended to `stats`, committed together.
 */
module GuestCheckIn {
  import opened Schema

  /** The row `save_guest` inserts: checked in at `now`, no checkout time yet. */
  function NewGuest(id: int, name: string, phone: string, encoding: Encoding, now: Timestamp): Guest
  {
    Guest(id, name, phone, encoding, Some(now), None, CheckedIn)
  }

  /** The event `save_guest` appends: it names no guest. */
  function CheckInEvent(now: Timestamp): StatEvent
  {
    StatEvent(None, CheckIn, 1, now)
  }

  /**
    Inserting the next row keeps the table well formed, and its id differs
    from every id already in the table.
   */
  lemma EnrolKeepsWellFormed(guests: seq<Guest>, nextId: int, name: string, phone: string,
                             encoding: Encoding, now: Timestamp)
    requires WellFormed(guests, nextId)
    ensures WellFormed(guests + [NewGuest(nextId, name, phone, encoding, now)], nextId + 1)
    ensures forall i :: 0 <= i < |guests| ==> guests[i].id != nextId
  {
  }

  /**
    save_guest: both writes happen in this one step. The new row gets the next
    AUTOINCREMENT id and the status "checked_in"; the rows already present are
    untouched; the event is a `check_in` counting 1 at the same time.
   */
  method SaveGuest(db: Database, name: string, phone: string, encoding: Encoding, now: Timestamp)
    requires db.Valid()
    modifies db
    ensures db.Valid()
    ensures db.guests == old(db.guests) + [NewGuest(old(db.nextGuestId), name, phone, encoding, now)]
    ensures forall i :: 0 <= i < |old(db.guests)| ==> old(db.guests)[i].id != old(db.nextGuestId)
    ensures db.nextGuestId == old(db.nextGuestId) + 1
    ensures db.stats == old(db.stats) + [CheckInEvent(now)]
  {
    EnrolKeepsWellFormed(db.guests, db.nextGuestId, name, phone, encoding, now);
    var id := db.nextGuestId;
    db.guests := db.guests + [NewGuest(id, name, phone, encoding, now)];
    db.nextGuestId := id + 1;
    db.stats := db.stats + [CheckInEvent(now)];
  }
}
