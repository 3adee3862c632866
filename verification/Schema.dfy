/**
  The two tables of the hotel database and the record shapes stored in them.

  `guests` holds one row per enrolled person; `stats` is an append-only log of
  check-in and check-out events from which the totals are computed.
 */
module Schema {

  datatype Option<T> = None | Some(value: T)

  /** A face encoding as kept in the `face_encoding` BLOB column; opaque here. */
  type Encoding = seq<bv8>

  /** A time as the code writes it: text in the form "YYYY-MM-DD HH:MM:SS". */
  type Timestamp = string

  /** The two values ever written to `guests.status`: "checked_in" and "checked_out". */
  datatype Status = CheckedIn | CheckedOut

  /** The two values ever written to `stats.action`: "check_in" and "check_out". */
  datatype Action = CheckIn | CheckOut

  /** One row of `guests`. The time columns are nullable. */
  datatype Guest = Guest(
    id: int,
    name: string,
    phone: string,
    encoding: Encoding,
    checkinTime: Option<Timestamp>,
    checkoutTime: Option<Timestamp>,
    status: Status)

  /** One row of `stats`. A check-in event carries no guest id. */
  datatype StatEvent = StatEvent(guestId: Option<int>, action: Action, count: int, time: Timestamp)

  /**
    The `guests` rows in rowid order under an AUTOINCREMENT key: every id is
    positive, ids strictly increase along the table, and every id is below the
    next value the key will hand out.
   */
  predicate WellFormed(guests: seq<Guest>, nextId: int)
  {
    && 1 <= nextId
    && (forall i :: 0 <= i < |guests| ==> 1 <= guests[i].id < nextId)
    && (forall i, j :: 0 <= i < j < |guests| ==> guests[i].id < guests[j].id)
  }

  /** Every event the code writes counts 1. */
  predicate UnitCounts(stats: seq<StatEvent>)
  {
    forall i :: 0 <= i < |stats| ==> stats[i].count == 1
  }

  /** The database handle: both tables and the AUTOINCREMENT counter of `guests`. */
  class Database {
    var guests: seq<Guest>
    var stats: seq<StatEvent>
    var nextGuestId: int

    ghost predicate Valid()
      reads this
    {
      WellFormed(guests, nextGuestId) && UnitCounts(stats)
    }

    /** Freshly created tables: both empty, the first id handed out is 1. */
    constructor ()
      ensures Valid()
      ensures guests == [] && stats == [] && nextGuestId == 1
    {
      guests := [];
      stats := [];
      nextGuestId := 1;
    }
  }
}
